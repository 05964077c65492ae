/** Small things the other modules share. */
module Basics {

  datatype Option<+T> = None | Some(value: T)

  function Min(a: nat, b: nat): (r: nat)
    ensures r <= a && r <= b && (r == a || r == b)
  {
    if a < b then a else b
  }

  function Abs(x: int): nat {
    if x < 0 then 0 - x else x
  }

  /** The parts end to end, with the separator between them. */
  function Join(parts: seq<string>, separator: string): string {
    if |parts| == 0 then []
    else if |parts| == 1 then parts[0]
    else Join(parts[..|parts| - 1], separator) + separator + parts[|parts| - 1]
  }

  /** The lists end to end. */
  function Flatten<T>(lists: seq<seq<T>>): seq<T> {
    if lists == [] then [] else Flatten(lists[..|lists| - 1]) + lists[|lists| - 1]
  }

  /** Two parts, and one part more. */
  lemma JoinSpelled(a: string, b: string, parts: seq<string>, separator: string)
    ensures Join([a, b], separator) == a + separator + b
    ensures parts != [] ==> Join(parts + [b], separator) == Join(parts, separator) + separator + b
    ensures Join([b], separator) == b && Join([], separator) == ""
  {
    assert [a, b][..1] == [a];
    assert (parts + [b])[..|parts|] == parts;
  }

  lemma {:induction false} FlattenHead<T>(head: seq<T>, rest: seq<seq<T>>)
    ensures Flatten([head] + rest) == head + Flatten(rest)
  {
    var lists := [head] + rest;
    if rest == [] {
      assert lists[..0] == [] && lists[0] == head;
      assert head + [] == head;
    } else {
      FlattenHead(head, rest[..|rest| - 1]);
      assert lists[..|lists| - 1] == [head] + rest[..|rest| - 1];
    }
  }
}
