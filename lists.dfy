/** Array edits shared by the editors. */
module Lists {
  import opened Wrappers

  /** `list.splice(index, 1)`: the element at `index` is removed and the later ones move up;
      an index past the end removes nothing. */
  function RemoveAt<T>(s: seq<T>, index: nat): (r: seq<T>)
    ensures |r| == if index < |s| then |s| - 1 else |s|
    ensures forall j :: 0 <= j < |r| ==> r[j] == if j < index then s[j] else s[j + 1]
  {
    if index < |s| then s[..index] + s[index + 1..] else s
  }

  /** Where a saved record goes: a new one (no edit index) is pushed at the end, an edited
      one replaces the element at its index and nothing else. An index past the end is
      treated as a push. */
  function PlaceAt<T>(s: seq<T>, index: Option<nat>, x: T): (r: seq<T>)
    ensures index.Some? && index.value < |s| ==>
      |r| == |s| && r[index.value] == x && forall j :: 0 <= j < |s| && j != index.value ==> r[j] == s[j]
    ensures !(index.Some? && index.value < |s|) ==> r == s + [x]
  {
    if index.Some? && index.value < |s| then s[index.value := x] else s + [x]
  }
}
