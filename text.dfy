/**
 * The parts of Python's `str` that the schedule engine relies on:
 * `isspace`, `strip`, `split`, `lower`, `capitalize`, `replace(' ', '')`
 * and the `in` substring test.  Case mapping is ASCII only.
 */
module Text {

  import opened Outcomes

  /** Python's `str.isspace` for one character (the set `strip()` and `split(None)` remove). */
  predicate IsSpace(c: char) {
    c == ' ' || ('\t' <= c <= '\r') || ('\U{1C}' <= c <= '\U{1F}') ||
    c == '\U{85}' || c == '\U{A0}' || c == '\U{1680}' || ('\U{2000}' <= c <= '\U{200A}') ||
    c == '\U{2028}' || c == '\U{2029}' || c == '\U{202F}' || c == '\U{205F}' || c == '\U{3000}'
  }

  function LowerChar(c: char): char {
    if 'A' <= c <= 'Z' then (c as int + 32) as char else c
  }

  function UpperChar(c: char): char {
    if 'a' <= c <= 'z' then (c as int - 32) as char else c
  }

  /** `s.lower()` */
  function Lower(s: string): (r: string)
    ensures |r| == |s|
    ensures forall i :: 0 <= i < |s| ==> r[i] == LowerChar(s[i])
  {
    if s == [] then [] else [LowerChar(s[0])] + Lower(s[1..])
  }

  /** `lower()` works piece by piece. */
  lemma LowerConcat(a: string, b: string)
    ensures Lower(a + b) == Lower(a) + Lower(b)
  {
    var l, r := Lower(a + b), Lower(a) + Lower(b);
    assert |l| == |r|;
    forall i | 0 <= i < |l| ensures l[i] == r[i] {
      if i < |a| {
        assert (a + b)[i] == a[i];
      } else {
        assert (a + b)[i] == b[i - |a|];
      }
    }
  }

  /** Lower-casing twice is lower-casing once. */
  lemma LowerIdempotent(s: string)
    ensures Lower(Lower(s)) == Lower(s)
  {
    var l := Lower(s);
    forall i | 0 <= i < |l| ensures Lower(l)[i] == l[i] {
      assert l[i] == LowerChar(s[i]);
    }
  }

  /** `s.capitalize()`: first character upper case, the rest lower case. */
  function Capitalize(s: string): (r: string)
    ensures |r| == |s|
    ensures s != [] ==> r[0] == UpperChar(s[0])
    ensures forall i :: 0 < i < |s| ==> r[i] == LowerChar(s[i])
  {
    if s == [] then [] else [UpperChar(s[0])] + Lower(s[1..])
  }

  /** `s[:3]` */
  function Prefix3(s: string): (r: string)
    ensures r <= s
    ensures |r| == if |s| < 3 then |s| else 3
  {
    if |s| < 3 then s else s[..3]
  }

  /** `s.replace(' ', '')`: drops ASCII spaces only. */
  function RemoveSpaces(s: string): (r: string)
    ensures ' ' !in r
    ensures forall c :: c in r <==> c in s && c != ' '
  {
    if s == [] then [] else (if s[0] == ' ' then [] else [s[0]]) + RemoveSpaces(s[1..])
  }

  /** `replace` works piece by piece: the pieces of a split string lose their spaces separately. */
  lemma {:induction false} RemoveSpacesConcat(a: string, b: string)
    ensures RemoveSpaces(a + b) == RemoveSpaces(a) + RemoveSpaces(b)
  {
    if a == [] {
      assert a + b == b;
    } else {
      var head := if a[0] == ' ' then [] else [a[0]];
      assert (a + b)[0] == a[0] && (a + b)[1..] == a[1..] + b;
      assert RemoveSpaces(a + b) == head + RemoveSpaces(a[1..] + b);
      RemoveSpacesConcat(a[1..], b);
      assert head + (RemoveSpaces(a[1..]) + RemoveSpaces(b)) == (head + RemoveSpaces(a[1..])) + RemoveSpaces(b);
    }
  }

  /** On one character `replace(' ', '')` drops a space and keeps anything else. */
  lemma RemoveSpacesChar(c: char)
    ensures RemoveSpaces([c]) == if c == ' ' then [] else [c]
  {
  }

  /** A string without spaces is left as it is. */
  lemma {:induction false} RemoveSpacesFixed(s: string)
    requires ' ' !in s
    ensures RemoveSpaces(s) == s
  {
    if s != [] {
      RemoveSpacesFixed(s[1..]);
    }
  }

  /** `t in s` for strings: `t` occurs as a contiguous substring of `s`. */
  predicate Occurs(s: string, t: string)
    decreases |s|
  {
    t <= s || (s != [] && Occurs(s[1..], t))
  }

  /** `t` is the slice of `s` that starts at `i`. */
  predicate OccursAt(s: string, t: string, i: int) {
    0 <= i <= |s| - |t| && s[i..i + |t|] == t
  }

  /** `t in s` holds exactly when `t` is the slice of `s` at some position. */
  lemma {:induction false} OccursIff(s: string, t: string)
    ensures Occurs(s, t) <==> exists i :: OccursAt(s, t, i)
    decreases |s|
  {
    if t <= s {
      assert OccursAt(s, t, 0);
    } else if s == [] {
    } else {
      OccursIff(s[1..], t);
      if Occurs(s[1..], t) {
        var i :| OccursAt(s[1..], t, i);
        assert s[i + 1..i + 1 + |t|] == s[1..][i..i + |t|];
        assert OccursAt(s, t, i + 1);
      }
      if exists i :: OccursAt(s, t, i) {
        var i :| OccursAt(s, t, i);
        assert i != 0;
        assert s[1..][i - 1..i - 1 + |t|] == s[i..i + |t|];
        assert OccursAt(s[1..], t, i - 1);
      }
    }
  }

  /** The first position of `c` in `s` (`s.find(c)`). */
  function Find(s: string, c: char): (r: Option<nat>)
    ensures r.Some? ==> r.value < |s| && s[r.value] == c && c !in s[..r.value]
    ensures r.None? ==> c !in s
  {
    if s == [] then None
    else if s[0] == c then Some(0)
    else match Find(s[1..], c)
      case None => None
      case Some(i) =>
        assert s[..i + 1] == [s[0]] + s[1..][..i];
        Some(i + 1)
  }

  /** `s.split(sep)` for a one-character separator: never empty, no piece holds `sep`. */
  function Split(s: string, sep: char): (r: seq<string>)
    ensures |r| >= 1
    ensures forall k :: 0 <= k < |r| ==> sep !in r[k]
    ensures Join(r, sep) == s
    decreases |s|
  {
    match Find(s, sep)
    case None => [s]
    case Some(i) =>
      var rest := Split(s[i + 1..], sep);
      assert s == s[..i] + [sep] + s[i + 1..];
      [s[..i]] + rest
  }

  /** The inverse of `Split`: `sep.join(pieces)`. */
  function Join(pieces: seq<string>, sep: char): string
    requires |pieces| >= 1
  {
    if |pieces| == 1 then pieces[0] else pieces[0] + [sep] + Join(pieces[1..], sep)
  }

  /** `s.split(sep, 1)`: one piece when `sep` does not occur, else the parts around its first occurrence. */
  function SplitOnce(s: string, sep: char): (r: seq<string>)
    ensures 1 <= |r| <= 2
    ensures |r| == 1 <==> sep !in s
    ensures |r| == 1 ==> r[0] == s
    ensures |r| == 2 ==> sep !in r[0] && s == r[0] + [sep] + r[1]
  {
    match Find(s, sep)
    case None => [s]
    case Some(i) =>
      assert s == s[..i] + [sep] + s[i + 1..];
      [s[..i], s[i + 1..]]
  }

  /** Every character is white space (true of the empty string). */
  predicate AllSpace(s: string) {
    s == [] || (IsSpace(s[0]) && AllSpace(s[1..]))
  }

  /** `s.lstrip()` */
  function StripLeft(s: string): (r: string)
    ensures r == [] || !IsSpace(r[0])
    ensures |r| <= |s| && r == s[|s| - |r|..]
  {
    if s != [] && IsSpace(s[0]) then StripLeft(s[1..]) else s
  }

  /** `s.rstrip()` */
  function StripRight(s: string): (r: string)
    ensures r == [] || !IsSpace(r[|r| - 1])
    ensures r <= s
  {
    if s != [] && IsSpace(s[|s| - 1]) then StripRight(s[..|s| - 1]) else s
  }

  /** `s.strip()` */
  function Strip(s: string): (r: string)
    ensures r == [] || (!IsSpace(r[0]) && !IsSpace(r[|r| - 1]))
  {
    StripRight(StripLeft(s))
  }

  /** Length of the leading run of non-space characters. */
  function WordEnd(s: string): (k: nat)
    ensures k <= |s|
    ensures forall j :: 0 <= j < k ==> !IsSpace(s[j])
    ensures k < |s| ==> IsSpace(s[k])
  {
    if s == [] || IsSpace(s[0]) then 0 else 1 + WordEnd(s[1..])
  }

  /**
   * `s.split(None, 1)`: leading white space is skipped, the first word is
   * cut off at the next white space, and the rest (its leading white space
   * skipped, its trailing white space kept) is the second piece if non-empty.
   */
  function SplitWordOnce(s: string): (r: seq<string>)
    ensures |r| <= 2
    ensures |r| == 2 ==> r[1] != [] && !IsSpace(r[1][0])
  {
    var t := StripLeft(s);
    if t == [] then []
    else
      var k := WordEnd(t);
      var rest := StripLeft(t[k..]);
      if rest == [] then [t[..k]] else [t[..k], rest]
  }

  /**
   * `split(None, 1)` reads the input as leading white space, a first word
   * (a maximal run of non-space characters), and then either only white
   * space (one piece) or some white space followed by the second piece.
   * Nothing is lost: the input is the pieces with white space between and
   * before them.
   */
  lemma SplitWordOnceParts(s: string)
    ensures SplitWordOnce(s) == [] <==> AllSpace(s)
    ensures var r := SplitWordOnce(s);
      r != [] ==>
        r[0] != [] && (forall j :: 0 <= j < |r[0]| ==> !IsSpace(r[0][j])) &&
        exists i, k :: 0 <= i <= k <= |s| && AllSpace(s[..i]) && s[i..k] == r[0] &&
          (k == |s| || IsSpace(s[k])) &&
          (|r| == 1 ==> AllSpace(s[k..])) &&
          (|r| == 2 ==> exists g :: k < g <= |s| && AllSpace(s[k..g]) && s[g..] == r[1])
  {
    var t := StripLeft(s);
    var i := |s| - |t|;
    StripLeftSpaces(s);
    if t == [] {
      assert s[..i] == s;
    } else {
      var n := WordEnd(t);
      var u := t[n..];
      var rest := StripLeft(u);
      var k, g := i + n, |s| - |rest|;
      CutAt(s, t, i, 0, i);
      if AllSpace(s) {
        AllSpaceAt(s, i);
      }
      CutAt(s, t, i, n, k);
      StrippedSuffix(s, u, rest, k, g);
      SplitWordOnceOf(s, t, n, rest);
      FirstWord(t, n);
      if rest != [] && n < |t| {
        assert IsSpace(u[0]);
      }
      var r := SplitWordOnce(s);
      assert r[0] == t[..n];
      WordPositions(s, r, i, k, g);
    }
  }

  /** Positions `i <= k <= g` that show where the pieces of `r` sit in `s`. */
  lemma WordPositions(s: string, r: seq<string>, i: nat, k: nat, g: nat)
    requires 1 <= |r| <= 2 && i <= k <= g <= |s|
    requires AllSpace(s[..i]) && s[i..k] == r[0] && (k == |s| || IsSpace(s[k]))
    requires |r| == 1 ==> AllSpace(s[k..])
    requires |r| == 2 ==> k < g && AllSpace(s[k..g]) && s[g..] == r[1]
    ensures exists i, k ::
      0 <= i <= k <= |s| && AllSpace(s[..i]) && s[i..k] == r[0] &&
      (k == |s| || IsSpace(s[k])) &&
      (|r| == 1 ==> AllSpace(s[k..])) &&
      (|r| == 2 ==> exists g :: k < g <= |s| && AllSpace(s[k..g]) && s[g..] == r[1])
  {
  }

  /** `split(None, 1)` in terms of the stripped input, its first word and the stripped rest. */
  lemma SplitWordOnceOf(s: string, t: string, n: nat, rest: string)
    requires t == StripLeft(s) && t != [] && n == WordEnd(t) && rest == StripLeft(t[n..])
    ensures SplitWordOnce(s) == if rest == [] then [t[..n]] else [t[..n], rest]
  {
  }

  /** The first word of a string that starts with a non-space character is not empty and has no space. */
  lemma FirstWord(t: string, n: nat)
    requires t != [] && !IsSpace(t[0]) && n == WordEnd(t)
    ensures t[..n] != [] && forall j :: 0 <= j < |t[..n]| ==> !IsSpace(t[..n][j])
  {
  }

  /** `lstrip` removes exactly a run of white space. */
  lemma {:induction false} StripLeftSpaces(s: string)
    ensures AllSpace(s[..|s| - |StripLeft(s)|])
  {
    var m := |s| - |StripLeft(s)|;
    if s != [] && IsSpace(s[0]) {
      StripLeftSpaces(s[1..]);
      assert s[..m][1..] == s[1..][..m - 1];
    } else {
      assert s[..m] == [];
    }
  }

  /** Each character of an all-white-space string is white space. */
  lemma {:induction false} AllSpaceAt(s: string, j: nat)
    requires AllSpace(s) && j < |s|
    ensures IsSpace(s[j])
  {
    if j > 0 {
      AllSpaceAt(s[1..], j - 1);
    }
  }

  /** Cutting a suffix of `s` at `n` is cutting `s` at `i + n`. */
  lemma CutAt(s: string, t: string, i: nat, n: nat, k: nat)
    requires i <= |s| && s[i..] == t && n <= |t| && k == i + n
    ensures s[i..k] == t[..n] && s[k..] == t[n..]
    ensures k < |s| ==> s[k] == t[n]
  {
  }

  /** Where the stripped form of a suffix of `s` starts in `s`. */
  lemma StrippedSuffix(s: string, u: string, rest: string, k: nat, g: nat)
    requires k <= |s| && s[k..] == u && rest == StripLeft(u) && g == |s| - |rest|
    ensures k <= g && AllSpace(s[k..g]) && s[g..] == rest
    ensures rest == [] ==> AllSpace(s[k..])
  {
    StripLeftSpaces(u);
    assert s[k..g] == u[..|u| - |rest|];
    if rest == [] {
      assert s[k..] == s[k..g];
    }
  }

  /** `rstrip` removes exactly a run of white space. */
  lemma {:induction false} StripRightSpaces(s: string)
    ensures AllSpace(s[|StripRight(s)|..])
  {
    if s != [] && IsSpace(s[|s| - 1]) {
      var init := s[..|s| - 1];
      StripRightSpaces(init);
      var n := |StripRight(s)|;
      AllSpaceSnoc(init[n..], s[|s| - 1]);
      assert s[n..] == init[n..] + [s[|s| - 1]];
    } else {
      assert s[|s|..] == [];
    }
  }

  /** White space followed by one more white-space character is white space. */
  lemma {:induction false} AllSpaceSnoc(s: string, c: char)
    requires AllSpace(s) && IsSpace(c)
    ensures AllSpace(s + [c])
  {
    if s != [] {
      AllSpaceSnoc(s[1..], c);
      assert (s + [c])[1..] == s[1..] + [c];
    }
  }

  /** An all-white-space string ends in white space and is white space without its last character. */
  lemma {:induction false} AllSpaceLast(b: string)
    requires AllSpace(b) && b != []
    ensures IsSpace(b[|b| - 1]) && AllSpace(b[..|b| - 1])
  {
    if |b| > 1 {
      AllSpaceLast(b[1..]);
      assert b[1..][..|b| - 2] == b[..|b| - 1][1..];
    }
  }

  /** `lstrip` removes a white-space prefix and stops at the first other character. */
  lemma {:induction false} StripLeftOf(a: string, y: string)
    requires AllSpace(a) && (y == [] || !IsSpace(y[0]))
    ensures StripLeft(a + y) == y
  {
    if a == [] {
      assert a + y == y;
    } else {
      assert (a + y)[0] == a[0] && (a + y)[1..] == a[1..] + y;
      StripLeftOf(a[1..], y);
    }
  }

  /** `rstrip` removes a white-space suffix and stops at the last other character. */
  lemma {:induction false} StripRightOf(x: string, b: string)
    requires AllSpace(b) && (x == [] || !IsSpace(x[|x| - 1]))
    ensures StripRight(x + b) == x
  {
    if b == [] {
      assert x + b == x;
    } else {
      AllSpaceLast(b);
      var b' := b[..|b| - 1];
      assert (x + b)[|x + b| - 1] == b[|b| - 1];
      assert (x + b)[..|x + b| - 1] == x + b';
      StripRightOf(x, b');
    }
  }

  /**
   * `strip` reads back: white space, a text that starts and ends with
   * another character, and white space strip to that text.
   */
  lemma StripOf(a: string, x: string, b: string)
    requires AllSpace(a) && AllSpace(b)
    requires x != [] && !IsSpace(x[0]) && !IsSpace(x[|x| - 1])
    ensures Strip(a + x + b) == x
  {
    assert StripLeft(a + x + b) == x + b by {
      Regroup3(a, x, b);
      StripLeftOf(a, x + b);
    }
    StripRightOf(x, b);
  }

  lemma Regroup3(a: string, x: string, b: string)
    ensures a + x + b == a + (x + b)
  {
  }

  /** `strip` removes exactly white space from both ends and keeps the text between. */
  lemma StripParts(s: string)
    ensures exists i, j :: 0 <= i <= j <= |s| && AllSpace(s[..i]) && s[i..j] == Strip(s) && AllSpace(s[j..])
  {
    var t := StripLeft(s);
    var i := |s| - |t|;
    StripLeftSpaces(s);
    var r := StripRight(t);
    StripRightSpaces(t);
    var j := i + |r|;
    assert s[i..] == t;
    assert s[i..j] == t[..|r|] == r;
    assert s[j..] == t[|r|..];
  }

  /** `find` returns the first occurrence, so a position with no earlier `c` is the answer. */
  lemma FindAt(s: string, c: char, i: nat)
    requires i < |s| && s[i] == c && c !in s[..i]
    ensures Find(s, c) == Some(i)
  {
    assert s[i] in s;
  }

  /** `split(sep, 1)` cuts at the first separator. */
  lemma SplitOnceAt(s: string, sep: char, a: string, b: string)
    requires s == a + [sep] + b && sep !in a
    ensures SplitOnce(s, sep) == [a, b]
  {
    assert s[..|a|] == a;
    FindAt(s, sep, |a|);
    assert s[|a| + 1..] == b;
  }

  /** `split(sep)` of a string with exactly one separator gives the two sides. */
  lemma SplitAtOne(s: string, sep: char, a: string, b: string)
    requires s == a + [sep] + b && sep !in a && sep !in b
    ensures Split(s, sep) == [a, b]
  {
    assert s[..|a|] == a;
    FindAt(s, sep, |a|);
    assert s[|a| + 1..] == b;
  }
}
