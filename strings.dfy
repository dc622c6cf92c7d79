/** The two string-list helpers the renderers use from Go's standard library:
    `strings.Join` and `slices.DeleteFunc` with the predicate "is empty". */
module Strings {

  /** `strings.Join(parts, sep)`: the parts with `sep` between consecutive ones. */
  function Join(parts: seq<string>, sep: string): string
  {
    if |parts| == 0 then ""
    else if |parts| == 1 then parts[0]
    else parts[0] + sep + Join(parts[1..], sep)
  }

  /** Four parts are joined with three separators. */
  lemma JoinFour(parts: seq<string>, sep: string)
    requires |parts| == 4
    ensures Join(parts, sep) == parts[0] + sep + parts[1] + sep + parts[2] + sep + parts[3]
  {
    assert parts[1..][1..] == parts[2..] && parts[2..][1..] == parts[3..];
    assert Join(parts[2..], sep) == parts[2] + sep + parts[3];
    assert Join(parts[1..], sep) == parts[1] + sep + (parts[2] + sep + parts[3]);
  }

  /** `slices.DeleteFunc(parts, func(s string) bool { return len(s) == 0 })`:
      the parts that are not empty, in their order. */
  function DropEmpty(parts: seq<string>): (r: seq<string>)
    ensures |r| <= |parts|
  {
    if |parts| == 0 then []
    else if parts[0] == "" then DropEmpty(parts[1..])
    else [parts[0]] + DropEmpty(parts[1..])
  }

  /** The kept parts are exactly the non-empty ones. */
  lemma {:induction false} DropEmptyMembers(parts: seq<string>)
    ensures forall s | s in DropEmpty(parts) :: s != "" && s in parts
    ensures forall s | s in parts && s != "" :: s in DropEmpty(parts)
  {
    if |parts| > 0 {
      DropEmptyMembers(parts[1..]);
    }
  }

  lemma {:induction false} DropEmptyAppend(a: seq<string>, b: seq<string>)
    ensures DropEmpty(a + b) == DropEmpty(a) + DropEmpty(b)
  {
    if |a| == 0 {
      assert a + b == b;
    } else {
      assert (a + b)[1..] == a[1..] + b;
      DropEmptyAppend(a[1..], b);
    }
  }

  /** A list without empty strings is left as it is. */
  lemma {:induction false} DropEmptyNoEmpty(parts: seq<string>)
    requires forall i | 0 <= i < |parts| :: parts[i] != ""
    ensures DropEmpty(parts) == parts
  {
    if |parts| > 0 {
      DropEmptyNoEmpty(parts[1..]);
    }
  }
}
