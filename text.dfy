/** The string operations the scripts take from Python's `str`: `strip()`,
    `replace` of one character, `split` on one character, the `in` test,
    `join`, iteration over the lines of a text file, and `<` on strings. */
module Text {

  /** The characters for which Python's `str.isspace()` holds, exactly the
      ones `str.strip()` with no argument removes. */
  const Whitespace: set<char> := {
    ' ', '\t', '\n', '\U{0B}', '\U{0C}', '\r',
    '\U{1C}', '\U{1D}', '\U{1E}', '\U{1F}', '\U{85}', '\U{A0}', '\U{1680}',
    '\U{2000}', '\U{2001}', '\U{2002}', '\U{2003}', '\U{2004}', '\U{2005}',
    '\U{2006}', '\U{2007}', '\U{2008}', '\U{2009}', '\U{200A}',
    '\U{2028}', '\U{2029}', '\U{202F}', '\U{205F}', '\U{3000}'
  }

  predicate IsSpace(c: char) {
    c in Whitespace
  }

  predicate AllSpace(s: string) {
    forall i :: 0 <= i < |s| ==> IsSpace(s[i])
  }

  /** Neither end of `s` is whitespace. */
  predicate Trimmed(s: string) {
    s == [] || (!IsSpace(s[0]) && !IsSpace(s[|s| - 1]))
  }

  /** The number of whitespace characters `s` starts with. */
  function LeadingSpace(s: string): (n: nat)
    ensures n <= |s| && AllSpace(s[..n])
    ensures n < |s| ==> !IsSpace(s[n])
    decreases |s|
  {
    if s != [] && IsSpace(s[0]) then
      var m := LeadingSpace(s[1..]);
      assert s[..m + 1] == [s[0]] + s[1..][..m];
      m + 1
    else 0
  }

  /** Where the whitespace `s` ends with begins. */
  function TrailingSpace(s: string): (n: nat)
    ensures n <= |s| && AllSpace(s[n..])
    ensures 0 < n ==> !IsSpace(s[n - 1])
    decreases |s|
  {
    if s != [] && IsSpace(s[|s| - 1]) then
      var m := TrailingSpace(s[..|s| - 1]);
      assert s[m..] == s[..|s| - 1][m..] + [s[|s| - 1]];
      m
    else |s|
  }

  /** Python's `str.strip()`: `s` with all whitespace removed at both
      ends. */
  function Strip(s: string): (r: string)
    ensures Trimmed(r)
  {
    var i, j := LeadingSpace(s), TrailingSpace(s);
    if i < j then s[i..j] else []
  }

  /** `s[i..j]` is what is left of `s` when whitespace only is removed from
      both ends. */
  predicate MiddlePart(s: string, i: int, j: int) {
    0 <= i <= j <= |s| && AllSpace(s[..i]) && AllSpace(s[j..])
  }

  /** What `strip()` keeps is the middle part of `s`, all that it removes is
      whitespace. */
  lemma StripIsMiddle(s: string)
    ensures exists i, j :: MiddlePart(s, i, j) && Strip(s) == s[i..j]
  {
    var i, j := LeadingSpace(s), TrailingSpace(s);
    if i < j {
      assert MiddlePart(s, i, j);
    } else {
      assert s[|s|..] == [];
      assert MiddlePart(s, |s|, |s|);
    }
  }

  /** `strip()` gives the empty string exactly when the string is all
      whitespace. */
  lemma StripEmptyIffAllSpace(s: string)
    ensures Strip(s) == [] <==> AllSpace(s)
  {
    if AllSpace(s) {
      assert LeadingSpace(s) == |s|;
    } else {
      var i, j := LeadingSpace(s), TrailingSpace(s);
      if i >= j {
        assert false;
      }
    }
  }

  lemma StripOfTrimmed(s: string)
    requires Trimmed(s)
    ensures Strip(s) == s
  {
    if s != [] {
      assert LeadingSpace(s) == 0;
      assert TrailingSpace(s) == |s|;
    }
  }

  /** Stripping a trimmed string with one whitespace character appended gives
      the string back. */
  lemma StripSpaceSuffix(s: string, c: char)
    requires Trimmed(s) && IsSpace(c)
    ensures Strip(s + [c]) == s
  {
    var u := s + [c];
    assert u[..|u| - 1] == s;
    if s == [] {
      assert LeadingSpace(u) == 1 + LeadingSpace(u[1..]);
      assert TrailingSpace(u) == TrailingSpace(s) == 0;
    } else {
      assert LeadingSpace(u) == 0;
      assert TrailingSpace(u) == TrailingSpace(s) == |s|;
      assert u[..|s|] == s;
    }
  }

  /** `s` begins with `sub`. */
  predicate StartsWith(s: string, sub: string) {
    |sub| <= |s| && s[..|sub|] == sub
  }

  /** Python's `sub in s` for strings: `sub` starts at some position of `s`. */
  predicate Contains(s: string, sub: string)
    decreases |s|
  {
    StartsWith(s, sub) || (s != [] && Contains(s[1..], sub))
  }

  /** An occurrence at position `k` is an occurrence. */
  lemma {:induction false} ContainsAt(s: string, sub: string, k: nat)
    requires k + |sub| <= |s| && s[k..k + |sub|] == sub
    ensures Contains(s, sub)
    decreases k
  {
    if k > 0 {
      assert s[1..][k - 1..k - 1 + |sub|] == s[k..k + |sub|];
      ContainsAt(s[1..], sub, k - 1);
    }
  }

  /** `sub` occurs in `s` at position `k`. */
  predicate OccursAt(s: string, sub: string, k: nat) {
    k + |sub| <= |s| && s[k..k + |sub|] == sub
  }

  /** Conversely, a string that contains `sub` has an occurrence of it. */
  lemma {:induction false} ContainsOccurrence(s: string, sub: string)
    requires Contains(s, sub)
    ensures exists k: nat :: OccursAt(s, sub, k)
    decreases |s|
  {
    if StartsWith(s, sub) {
      assert OccursAt(s, sub, 0);
    } else {
      ContainsOccurrence(s[1..], sub);
      var k: nat :| OccursAt(s[1..], sub, k);
      assert s[1..][k..k + |sub|] == s[k + 1..k + 1 + |sub|];
      assert OccursAt(s, sub, k + 1);
    }
  }

  /** Python's `s.replace(c, t)` for a one-character `c`: each occurrence of
      `c` becomes `t`, all other characters stay, in order. */
  function ReplaceChar(s: string, c: char, t: string): string
    decreases |s|
  {
    if s == [] then []
    else (if s[0] == c then t else [s[0]]) + ReplaceChar(s[1..], c, t)
  }

  /** Only characters of `t`, and characters of `s` other than `c`, are left. */
  lemma {:induction false} ReplaceCharMembers(s: string, c: char, t: string)
    ensures forall x :: x in ReplaceChar(s, c, t) ==> x in t || (x in s && x != c)
    decreases |s|
  {
    if s != [] {
      ReplaceCharMembers(s[1..], c, t);
      assert forall x :: x in s[1..] ==> x in s;
    }
  }

  /** Replacing a character that does not occur changes nothing. */
  lemma {:induction false} ReplaceCharAbsent(s: string, c: char, t: string)
    requires c !in s
    ensures ReplaceChar(s, c, t) == s
    decreases |s|
  {
    if s != [] {
      assert s[0] in s;
      assert forall x :: x in s[1..] ==> x in s;
      ReplaceCharAbsent(s[1..], c, t);
      assert [s[0]] + s[1..] == s;
    }
  }

  lemma {:induction false} ReplaceCharAppend(a: string, b: string, c: char, t: string)
    ensures ReplaceChar(a + b, c, t) == ReplaceChar(a, c, t) + ReplaceChar(b, c, t)
    decreases |a|
  {
    if a != [] {
      var ab := a + b;
      assert ab[0] == a[0] && ab[1..] == a[1..] + b;
      ReplaceCharAppend(a[1..], b, c, t);
      var h := if a[0] == c then t else [a[0]];
      assert ReplaceChar(ab, c, t) == h + ReplaceChar(ab[1..], c, t);
      assert ReplaceChar(a, c, t) == h + ReplaceChar(a[1..], c, t);
      assert h + (ReplaceChar(a[1..], c, t) + ReplaceChar(b, c, t))
          == (h + ReplaceChar(a[1..], c, t)) + ReplaceChar(b, c, t);
    } else {
      assert a + b == b;
    }
  }

  /** The position of the first `c` in `s`. */
  function IndexOf(s: string, c: char): (i: nat)
    requires c in s
    ensures i < |s| && s[i] == c && c !in s[..i]
    decreases |s|
  {
    if s[0] == c then 0
    else
      var i := IndexOf(s[1..], c);
      assert s[..i + 1] == [s[0]] + s[1..][..i];
      i + 1
  }

  /** Python's `s.split(c)` for a one-character `c`: the pieces between the
      occurrences of `c`. */
  function SplitOn(s: string, c: char): (r: seq<string>)
    ensures forall k :: 0 <= k < |r| ==> c !in r[k]
    decreases |s|
  {
    if c !in s then [s]
    else
      var i := IndexOf(s, c);
      var pieces := SplitOn(s[i + 1..], c);
      assert forall k :: 1 <= k < |pieces| + 1 ==> ([s[..i]] + pieces)[k] == pieces[k - 1];
      [s[..i]] + pieces
  }

  /** There is one piece more than there are occurrences of `c`. */
  lemma {:induction false} SplitOnCount(s: string, c: char)
    ensures |SplitOn(s, c)| == multiset(s)[c] + 1
    decreases |s|
  {
    if c in s {
      var i := IndexOf(s, c);
      var head, rest := s[..i], s[i + 1..];
      assert s == head + [c] + rest;
      assert multiset(s) == multiset(head) + multiset{c} + multiset(rest);
      assert multiset(head)[c] == 0;
      SplitOnCount(rest, c);
    }
  }

  /** Python's `sep.join(xs)`. */
  function Join(sep: string, xs: seq<string>): string
    decreases |xs|
  {
    if |xs| == 0 then ""
    else if |xs| == 1 then xs[0]
    else xs[0] + sep + Join(sep, xs[1..])
  }

  /** Any position holding `c` with no `c` before it is the one `IndexOf`
      finds. */
  lemma FirstIndex(s: string, c: char, n: nat)
    requires n < |s| && s[n] == c && c !in s[..n]
    ensures IndexOf(s, c) == n
  {
    var i := IndexOf(s, c);
    assert forall j :: 0 <= j < n ==> s[j] == s[..n][j];
    assert forall j :: 0 <= j < i ==> s[j] == s[..i][j];
  }

  /** Splitting a join on its one-character separator gives the pieces back,
      as long as no piece contains the separator. */
  lemma {:induction false} SplitJoin(xs: seq<string>, c: char)
    requires |xs| > 0
    requires forall k :: 0 <= k < |xs| ==> c !in xs[k]
    ensures SplitOn(Join([c], xs), c) == xs
    decreases |xs|
  {
    if |xs| > 1 {
      var s := Join([c], xs);
      var head := xs[0];
      var rest := Join([c], xs[1..]);
      assert s == head + [c] + rest;
      assert s[..|head|] == head;
      FirstIndex(s, c, |head|);
      assert s[|head| + 1..] == rest;
      SplitJoin(xs[1..], c);
    }
  }

  /** Joining the pieces of a split with the separator gives the string
      back. */
  lemma {:induction false} JoinSplit(s: string, c: char)
    ensures Join([c], SplitOn(s, c)) == s
    decreases |s|
  {
    if c in s {
      var i := IndexOf(s, c);
      JoinSplit(s[i + 1..], c);
      assert |SplitOn(s[i + 1..], c)| >= 1;
      assert s == s[..i] + [c] + s[i + 1..];
    }
  }

  /** A join with a non-empty separator is empty exactly when it joins no
      pieces or a single empty piece. */
  lemma JoinEmpty(sep: string, xs: seq<string>)
    requires sep != ""
    ensures Join(sep, xs) == "" <==> |xs| == 0 || xs == [""]
  {
    if |xs| > 1 {
      assert |Join(sep, xs)| >= |sep|;
    }
  }

  /** The concatenation of a sequence of strings. */
  function Concat(xs: seq<string>): string
    decreases |xs|
  {
    if xs == [] then "" else xs[0] + Concat(xs[1..])
  }

  lemma {:induction false} ConcatAppend(a: seq<string>, b: seq<string>)
    ensures Concat(a + b) == Concat(a) + Concat(b)
    decreases |a|
  {
    if a != [] {
      var ab := a + b;
      assert ab[0] == a[0] && ab[1..] == a[1..] + b;
      ConcatAppend(a[1..], b);
      assert Concat(ab) == a[0] + Concat(ab[1..]);
      assert a[0] + (Concat(a[1..]) + Concat(b)) == (a[0] + Concat(a[1..])) + Concat(b);
    } else {
      assert a + b == b;
    }
  }

  /** The lines Python's iteration over a text file with content `s` yields:
      each piece up to and including a '\n', then a last piece without one if
      `s` does not end in '\n'. */
  function Lines(s: string): seq<string>
    decreases |s|
  {
    if '\n' !in s then (if s == [] then [] else [s])
    else
      var i := IndexOf(s, '\n');
      [s[..i + 1]] + Lines(s[i + 1..])
  }

  /** Each `x` followed by a newline, one after another, as a loop of
      `file.write(x + '\n')` leaves the file. */
  function WriteLines(xs: seq<string>): string
    decreases |xs|
  {
    if xs == [] then "" else xs[0] + "\n" + WriteLines(xs[1..])
  }

  /** A first line without a newline is read as that line with its
      newline. */
  lemma LinesCons(head: string, rest: string)
    requires '\n' !in head
    ensures Lines(head + "\n" + rest) == [head + "\n"] + Lines(rest)
  {
    var s := head + "\n" + rest;
    assert s[..|head|] == head;
    FirstIndex(s, '\n', |head|);
    assert s[..|head| + 1] == head + "\n";
    assert s[|head| + 1..] == rest;
  }

  /** Reading back what `WriteLines` wrote yields the written lines, each with
      its newline, when no piece itself contains a newline. */
  lemma {:induction false} LinesOfWriteLines(xs: seq<string>)
    requires forall k :: 0 <= k < |xs| ==> '\n' !in xs[k]
    ensures |Lines(WriteLines(xs))| == |xs|
    ensures forall k :: 0 <= k < |xs| ==> Lines(WriteLines(xs))[k] == xs[k] + "\n"
    decreases |xs|
  {
    if xs != [] {
      var rest := WriteLines(xs[1..]);
      assert WriteLines(xs) == xs[0] + "\n" + rest;
      LinesCons(xs[0], rest);
      LinesOfWriteLines(xs[1..]);
      var ls := Lines(WriteLines(xs));
      forall k | 0 <= k < |xs|
        ensures ls[k] == xs[k] + "\n"
      {
        if k > 0 {
          assert ls[k] == Lines(rest)[k - 1];
          assert xs[k] == xs[1..][k - 1];
        }
      }
    }
  }

  /** Python's `a < b` on `str`: lexicographic by code point, a proper prefix
      coming first. */
  predicate Less(a: string, b: string)
    decreases |a|
  {
    if a == [] then b != []
    else if b == [] then false
    else if a[0] != b[0] then a[0] < b[0]
    else Less(a[1..], b[1..])
  }

  lemma {:induction false} LessIrreflexive(a: string)
    ensures !Less(a, a)
    decreases |a|
  {
    if a != [] {
      LessIrreflexive(a[1..]);
    }
  }

  lemma {:induction false} LessAsymmetric(a: string, b: string)
    requires Less(a, b)
    ensures !Less(b, a)
    decreases |a|
  {
    if a != [] && a[0] == b[0] {
      LessAsymmetric(a[1..], b[1..]);
    }
  }

  lemma {:induction false} LessTransitive(a: string, b: string, c: string)
    requires Less(a, b) && Less(b, c)
    ensures Less(a, c)
    decreases |a|
  {
    if a != [] && a[0] == b[0] && b[0] == c[0] {
      LessTransitive(a[1..], b[1..], c[1..]);
    }
  }

  lemma {:induction false} LessTotal(a: string, b: string)
    requires a != b
    ensures Less(a, b) || Less(b, a)
    decreases |a|
  {
    if a != [] && b != [] && a[0] == b[0] {
      assert a == [a[0]] + a[1..] && b == [b[0]] + b[1..];
      LessTotal(a[1..], b[1..]);
    }
  }
}
