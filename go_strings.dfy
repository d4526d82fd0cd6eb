/**
 * The parts of Go's `strings` package that the digest engine relies on,
 * for one-character separators and a set of cut characters.
 */
module GoStrings {

  /** Position of the first `c` in `s`, or `|s|` when `s` has none
      (`strings.IndexByte`, with its -1 written as `|s|`). */
  function IndexOf(s: string, c: char): (i: nat)
    ensures i <= |s|
    ensures i < |s| ==> s[i] == c
    ensures forall k :: 0 <= k < i ==> s[k] != c
  {
    if s == [] || s[0] == c then 0 else 1 + IndexOf(s[1..], c)
  }

  /** `strings.SplitN(s, sep, 2)`: the text before and after the first `sep`,
      or `[s]` alone when `sep` does not occur. */
  function SplitN2(s: string, sep: char): (parts: seq<string>)
    ensures 1 <= |parts| <= 2
    ensures |parts| == 2 <==> sep in s
    ensures |parts| == 1 ==> parts[0] == s
    ensures |parts| == 2 ==> sep !in parts[0] && s == parts[0] + [sep] + parts[1]
  {
    var i := IndexOf(s, sep);
    if i == |s| then [s] else [s[..i], s[i + 1..]]
  }

  /** SplitN2 cuts exactly at the first separator. */
  lemma {:induction false} SplitN2At(a: string, b: string, sep: char)
    requires sep !in a
    ensures SplitN2(a + [sep] + b, sep) == [a, b]
  {
    var s := a + [sep] + b;
    var i := IndexOf(s, sep);
    assert s[|a|] == sep;
    assert forall k :: 0 <= k < |a| ==> s[k] == a[k];
    assert i == |a|;
    assert s[..i] == a && s[i + 1..] == b;
  }

  /** `strings.Split(s, sep)`: the pieces between successive `sep`s; the empty
      string gives one empty piece. */
  function Split(s: string, sep: char): (parts: seq<string>)
    ensures |parts| >= 1
    ensures forall i :: 0 <= i < |parts| ==> sep !in parts[i]
  {
    if s == [] then [""]
    else
      var rest := Split(s[1..], sep);
      if s[0] == sep then [""] + rest
      else [[s[0]] + rest[0]] + rest[1..]
  }

  /** `strings.Join(parts, sep)`. */
  function Join(parts: seq<string>, sep: string): string
  {
    if |parts| == 0 then ""
    else if |parts| == 1 then parts[0]
    else parts[0] + sep + Join(parts[1..], sep)
  }

  /** Appending a piece adds the separator and the piece at the end. */
  lemma {:induction false} JoinSnoc(parts: seq<string>, x: string, sep: string)
    requires |parts| >= 1
    ensures Join(parts + [x], sep) == Join(parts, sep) + sep + x
  {
    var all := parts + [x];
    assert all[1..] == parts[1..] + [x];
    if |parts| > 1 {
      JoinSnoc(parts[1..], x, sep);
    }
  }

  /** The pieces as they stand between the commas of a `", "`-joined text:
      every piece after the first keeps the space that followed its comma. */
  function Spaced(parts: seq<string>): (r: seq<string>)
    ensures |r| == |parts|
    ensures forall i :: 0 <= i < |parts| ==> r[i] == (if i == 0 then parts[0] else " " + parts[i])
  {
    seq(|parts|, i requires 0 <= i < |parts| => if i == 0 then parts[0] else " " + parts[i])
  }

  /** Joining with `", "` is joining with `","` pieces that carry their space. */
  lemma {:induction false} JoinCommaSpace(parts: seq<string>)
    requires |parts| >= 1
    ensures Join(parts, ", ") == Join(Spaced(parts), ",")
  {
    if |parts| > 1 {
      var rest := parts[1..];
      JoinSpacedTail(rest);
      assert Spaced(parts)[1..] == SpaceAll(rest);
      assert Join(parts, ", ") == parts[0] + ", " + Join(rest, ", ");
      assert Join(Spaced(parts), ",") == parts[0] + "," + Join(SpaceAll(rest), ",");
      assert ", " + Join(rest, ", ") == "," + (" " + Join(rest, ", "));
    }
  }

  function SpaceAll(parts: seq<string>): (r: seq<string>)
    ensures |r| == |parts|
    ensures forall i :: 0 <= i < |parts| ==> r[i] == " " + parts[i]
  {
    seq(|parts|, i requires 0 <= i < |parts| => " " + parts[i])
  }

  lemma {:induction false} JoinSpacedTail(parts: seq<string>)
    requires |parts| >= 1
    ensures " " + Join(parts, ", ") == Join(SpaceAll(parts), ",")
  {
    if |parts| > 1 {
      var rest := parts[1..];
      JoinSpacedTail(rest);
      assert SpaceAll(parts)[1..] == SpaceAll(rest);
      assert " " + Join(parts, ", ") == (" " + parts[0]) + "," + (" " + Join(rest, ", "));
    }
  }

  /** Joining the pieces of a split with the separator gives back the input. */
  lemma {:induction false} JoinSplit(s: string, sep: char)
    ensures Join(Split(s, sep), [sep]) == s
  {
    if s != [] {
      var rest := Split(s[1..], sep);
      JoinSplit(s[1..], sep);
      if s[0] == sep {
        assert ([""] + rest)[1..] == rest;
      } else if |rest| > 1 {
        var parts := [[s[0]] + rest[0]] + rest[1..];
        assert parts[1..] == rest[1..];
        assert Join(rest, [sep]) == rest[0] + [sep] + Join(rest[1..], [sep]);
      }
    }
  }

  /** A string without the separator splits into itself alone. */
  lemma {:induction false} SplitWithout(a: string, sep: char)
    requires sep !in a
    ensures Split(a, sep) == [a]
  {
    if a != [] {
      SplitWithout(a[1..], sep);
      assert [a[0]] + a[1..] == a;
    }
  }

  /** Splitting stops at the first separator and goes on with the rest. */
  lemma {:induction false} SplitAtFirst(a: string, b: string, sep: char)
    requires sep !in a
    ensures Split(a + [sep] + b, sep) == [a] + Split(b, sep)
  {
    var s := a + [sep] + b;
    if a == [] {
      assert s[1..] == b;
    } else {
      assert s[1..] == a[1..] + [sep] + b;
      SplitAtFirst(a[1..], b, sep);
      assert [a[0]] + a[1..] == a;
    }
  }

  /** Splitting the join of separator-free pieces gives back the pieces. */
  lemma {:induction false} SplitJoin(parts: seq<string>, sep: char)
    requires |parts| >= 1
    requires forall i :: 0 <= i < |parts| ==> sep !in parts[i]
    ensures Split(Join(parts, [sep]), sep) == parts
  {
    if |parts| == 1 {
      SplitWithout(parts[0], sep);
    } else {
      SplitJoin(parts[1..], sep);
      SplitAtFirst(parts[0], Join(parts[1..], [sep]), sep);
      assert [parts[0]] + parts[1..] == parts;
    }
  }

  /** True when every character of `s` is in `cutset`. */
  predicate AllIn(s: string, cutset: set<char>)
  {
    forall k :: 0 <= k < |s| ==> s[k] in cutset
  }

  /** True when `s` neither starts nor ends with a character of `cutset`. */
  predicate Trimmed(s: string, cutset: set<char>)
  {
    s == [] || (s[0] !in cutset && s[|s| - 1] !in cutset)
  }

  /** `strings.TrimLeft(s, cutset)`: the longest suffix of `s` that does not
      start with a cut character. */
  function TrimLeft(s: string, cutset: set<char>): (r: string)
    ensures |r| <= |s| && r == s[|s| - |r|..]
    ensures AllIn(s[..|s| - |r|], cutset)
    ensures r == [] || r[0] !in cutset
  {
    if s != [] && s[0] in cutset then
      var r := TrimLeft(s[1..], cutset);
      assert s[..|s| - |r|] == [s[0]] + s[1..][..|s| - 1 - |r|];
      r
    else s
  }

  /** `strings.TrimRight(s, cutset)`: the longest prefix of `s` that does not
      end with a cut character. */
  function TrimRight(s: string, cutset: set<char>): (r: string)
    ensures |r| <= |s| && r == s[..|r|]
    ensures AllIn(s[|r|..], cutset)
    ensures r == [] || r[|r| - 1] !in cutset
  {
    if s != [] && s[|s| - 1] in cutset then
      var r := TrimRight(s[..|s| - 1], cutset);
      assert s[|r|..] == s[..|s| - 1][|r|..] + [s[|s| - 1]];
      r
    else s
  }

  /** True when `r` occurs in `s` as a contiguous run. */
  predicate Infix(r: string, s: string)
  {
    exists i :: 0 <= i <= |s| && r <= s[i..]
  }

  /** A character missing from a text is missing from each of its infixes. */
  lemma {:induction false} InfixWithout(r: string, s: string, c: char)
    requires Infix(r, s) && c !in s
    ensures c !in r
  {
    var i :| 0 <= i <= |s| && r <= s[i..];
    forall k | 0 <= k < |r|
      ensures r[k] != c
    {
      assert r[k] == s[i..][k] == s[i + k];
    }
  }

  /** `strings.Trim(s, cutset)`: `s` without its leading and trailing cut
      characters; what remains is an infix of `s`. */
  function Trim(s: string, cutset: set<char>): (r: string)
    ensures Trimmed(r, cutset)
    ensures Infix(r, s)
  {
    var left := TrimLeft(s, cutset);
    var r := TrimRight(left, cutset);
    assert r <= s[|s| - |left|..];
    r
  }

  /** Trim removes exactly a frame of cut characters: whatever is wrapped in
      cut characters and is itself trimmed comes back unchanged. */
  lemma {:induction false} TrimFrame(p: string, v: string, q: string, cutset: set<char>)
    requires AllIn(p, cutset) && AllIn(q, cutset) && Trimmed(v, cutset)
    ensures Trim(p + v + q, cutset) == v
  {
    if v == [] {
      assert p + v + q == p + q;
      assert AllIn(p + q, cutset);
      TrimLeftAll(p + q, cutset);
    } else {
      assert p + v + q == p + (v + q);
      TrimLeftFrame(p, v + q, cutset);
      TrimRightFrame(v, q, cutset);
    }
  }

  lemma {:induction false} TrimLeftFrame(p: string, w: string, cutset: set<char>)
    requires AllIn(p, cutset)
    requires w == [] || w[0] !in cutset
    ensures TrimLeft(p + w, cutset) == w
  {
    if p == [] {
      assert p + w == w;
    } else {
      assert (p + w)[1..] == p[1..] + w;
      TrimLeftFrame(p[1..], w, cutset);
    }
  }

  lemma {:induction false} TrimLeftAll(s: string, cutset: set<char>)
    requires AllIn(s, cutset)
    ensures TrimLeft(s, cutset) == []
  {
    if s != [] {
      TrimLeftAll(s[1..], cutset);
    }
  }

  lemma {:induction false} TrimRightFrame(v: string, q: string, cutset: set<char>)
    requires AllIn(q, cutset)
    requires v == [] || v[|v| - 1] !in cutset
    ensures TrimRight(v + q, cutset) == v
  {
    if q == [] {
      assert v + q == v;
    } else {
      assert (v + q)[..|v + q| - 1] == v + q[..|q| - 1];
      TrimRightFrame(v, q[..|q| - 1], cutset);
    }
  }
}
