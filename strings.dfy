/**
 * The `java.lang.String` operations the upload pipeline relies on: `indexOf`,
 * `lastIndexOf`, and `split` on a single-character separator with its default limit,
 * which drops trailing empty fields.
 */
module Strings {

  /** `indexOf(c)`: the first position of `c` in `s`, or -1 when there is none. */
  function IndexOf(s: string, c: char): (r: int)
    ensures -1 <= r < |s|
    ensures r == -1 <==> c !in s
    ensures 0 <= r ==> s[r] == c && forall j :: 0 <= j < r ==> s[j] != c
  {
    if |s| == 0 then -1
    else if s[0] == c then 0
    else
      var i := IndexOf(s[1..], c);
      if i < 0 then -1 else i + 1
  }

  /** `lastIndexOf(c)`: the last position of `c` in `s`, or -1 when there is none. */
  function LastIndexOf(s: string, c: char): (r: int)
    ensures -1 <= r < |s|
    ensures r == -1 <==> c !in s
    ensures 0 <= r ==> s[r] == c && forall j :: r < j < |s| ==> s[j] != c
  {
    if |s| == 0 then -1
    else if s[|s| - 1] == c then |s| - 1
    else
      var i := LastIndexOf(s[..|s| - 1], c);
      assert s == s[..|s| - 1] + [s[|s| - 1]];
      i
  }

  /** When `p` has no `c`, the first `c` of `p + [c] + rest` is the one after `p`. */
  lemma IndexOfAfter(p: string, c: char, rest: string)
    requires c !in p
    ensures IndexOf(p + [c] + rest, c) == |p|
  {
    var s := p + [c] + rest;
    var i := IndexOf(s, c);
    assert s[|p|] == c;
    assert s[..|p|] == p;
  }

  /** When `x` has no `c`, the last `c` of `p + [c] + x` is the one before `x`. */
  lemma LastIndexOfBefore(p: string, c: char, x: string)
    requires c !in x
    ensures LastIndexOf(p + [c] + x, c) == |p|
  {
    var s := p + [c] + x;
    var i := LastIndexOf(s, c);
    assert s[|p|] == c;
    assert s[|p| + 1..] == x;
  }

  /** Every field of `s` between separators `c`, empty ones included. */
  function Fields(s: string, c: char): (r: seq<string>)
    ensures |r| >= 1
    ensures forall i :: 0 <= i < |r| ==> c !in r[i]
    ensures c !in s ==> r == [s]
    decreases |s|
  {
    var i := IndexOf(s, c);
    if i < 0 then [s]
    else
      var head, tail := s[..i], Fields(s[i + 1..], c);
      NoneBefore(s, c, i);
      PrependField(head, tail, c);
      [head] + tail
  }

  /** Putting a field free of `c` in front of fields free of `c` keeps them all free of `c`. */
  lemma PrependField(head: string, tail: seq<string>, c: char)
    requires c !in head
    requires forall i :: 0 <= i < |tail| ==> c !in tail[i]
    ensures forall i :: 0 <= i < |[head] + tail| ==> c !in ([head] + tail)[i]
  {
    forall i | 0 <= i < |[head] + tail| ensures c !in ([head] + tail)[i] {
      if i > 0 { assert ([head] + tail)[i] == tail[i - 1]; }
    }
  }

  /** A prefix in which no position holds `c` does not contain `c`. */
  lemma NoneBefore(s: string, c: char, n: int)
    requires 0 <= n <= |s|
    requires forall j :: 0 <= j < n ==> s[j] != c
    ensures c !in s[..n]
  {
  }

  /** The fields put back together, separated by `c`. */
  function Join(fields: seq<string>, c: char): (r: string)
    ensures |fields| == 1 ==> r == fields[0]
  {
    if |fields| == 0 then ""
    else if |fields| == 1 then fields[0]
    else fields[0] + [c] + Join(fields[1..], c)
  }

  /** A field free of `c` followed by `c` starts a new field. */
  lemma FieldsCons(p: string, c: char, rest: string)
    requires c !in p
    ensures Fields(p + [c] + rest, c) == [p] + Fields(rest, c)
  {
    var s := p + [c] + rest;
    IndexOfAfter(p, c, rest);
    assert s[..|p|] == p;
    assert s[|p| + 1..] == rest;
  }

  /** Joining the fields of a text, separators put back, gives the text back. */
  lemma {:induction false} JoinFields(s: string, c: char)
    ensures Join(Fields(s, c), c) == s
    decreases |s|
  {
    if c in s {
      var i := FieldsAtFirst(s, c);
      JoinFields(s[i + 1..], c);
      JoinCons(s[..i], Fields(s[i + 1..], c), c);
    }
  }

  /** A text with a separator splits at its first one into a field and the fields after it. */
  lemma FieldsAtFirst(s: string, c: char) returns (i: nat)
    requires c in s
    ensures i < |s| && s == s[..i] + [c] + s[i + 1..]
    ensures Fields(s, c) == [s[..i]] + Fields(s[i + 1..], c)
  {
    i := IndexOf(s, c);
  }

  /** A field put in front of at least one other is joined to them by a separator. */
  lemma JoinCons(head: string, tail: seq<string>, c: char)
    requires |tail| >= 1
    ensures Join([head] + tail, c) == head + [c] + Join(tail, c)
  {
    assert ([head] + tail)[1..] == tail;
  }

  /** Splitting a join of `c`-free fields gives those fields back. */
  lemma {:induction false} FieldsJoin(fields: seq<string>, c: char)
    requires |fields| >= 1
    requires forall i :: 0 <= i < |fields| ==> c !in fields[i]
    ensures Fields(Join(fields, c), c) == fields
    decreases |fields|
  {
    if |fields| > 1 {
      FieldsJoin(fields[1..], c);
      FieldsCons(fields[0], c, Join(fields[1..], c));
      assert fields == [fields[0]] + fields[1..];
    }
  }

  /** `fields` without its trailing empty fields. */
  function TrimTrailingEmpty(fields: seq<string>): (r: seq<string>)
    ensures |r| <= |fields| && r == fields[..|r|]
    ensures |r| > 0 ==> r[|r| - 1] != ""
    ensures forall i :: |r| <= i < |fields| ==> fields[i] == ""
  {
    if |fields| > 0 && fields[|fields| - 1] == "" then TrimTrailingEmpty(fields[..|fields| - 1])
    else fields
  }

  /** A field free of `c` that ends the input or is followed by `c` is the first field. */
  lemma FirstField(x: string, c: char, rest: string)
    requires c !in x
    requires rest == "" || rest[0] == c
    ensures Fields(x + rest, c)[0] == x
  {
    if rest == "" {
      assert x + rest == x;
    } else {
      assert x + rest == x + [c] + rest[1..];
      FieldsCons(x, c, rest[1..]);
    }
  }

  /** A non-empty second field survives the trimming, and so does everything before it. */
  lemma SecondFieldKept(fields: seq<string>)
    requires |fields| >= 2 && fields[1] != ""
    ensures |TrimTrailingEmpty(fields)| >= 2 && TrimTrailingEmpty(fields)[..2] == fields[..2]
  {
    assert fields[1] != "";
  }

  /**
   * `split(c)` with the default limit: the whole string when `c` does not occur,
   * otherwise its fields without the trailing empty ones.
   */
  function Split(s: string, c: char): (r: seq<string>)
    ensures forall i :: 0 <= i < |r| ==> c !in r[i]
    ensures c !in s ==> r == [s]
    ensures c in s ==> |r| <= |Fields(s, c)| && r == Fields(s, c)[..|r|]
    ensures c in s ==> forall i :: |r| <= i < |Fields(s, c)| ==> Fields(s, c)[i] == ""
    ensures c in s && |r| > 0 ==> r[|r| - 1] != ""
  {
    if c !in s then [s] else TrimTrailingEmpty(Fields(s, c))
  }
}
