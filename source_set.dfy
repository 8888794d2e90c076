/** The ordered list of wave emitters and the two click handlers that grow and
    shrink it. The list is kept between one and six entries long. */
module SourceSet {

  /** A point emitter: its position on the canvas and a frequency that is
      stored but never read by any computation. */
  datatype Source = Source(x: real, y: real, frequency: real)

  const MinSources: nat := 1
  const MaxSources: nat := 6

  /** The three emitters present when the page loads. */
  const InitialSources: seq<Source> :=
    [Source(200.0, 300.0, 1.0), Source(400.0, 300.0, 1.0), Source(600.0, 300.0, 1.0)]

  /** The emitter that "add" appends when the list already holds `count` entries:
      staggered 100 pixels apart along the line y = 300. */
  function NewSource(count: nat): Source
  {
    Source(100.0 + 100.0 * (count as real), 300.0, 1.0)
  }

  /** The list after an "add" click: one new emitter at the end when there is
      room, otherwise the same list. */
  function Added(s: seq<Source>): (r: seq<Source>)
    ensures |s| < MaxSources ==>
      |r| == |s| + 1 && r[..|s|] == s &&
      r[|s|] == Source(100.0 + 100.0 * (|s| as real), 300.0, 1.0)
    ensures |s| >= MaxSources ==> r == s
  {
    if |s| < MaxSources then s + [NewSource(|s|)] else s
  }

  /** The list after a "remove" click: the last emitter popped when more than
      one is left, otherwise the same list. */
  function Removed(s: seq<Source>): (r: seq<Source>)
    ensures |s| > MinSources ==> |r| == |s| - 1 && r + [s[|s| - 1]] == s
    ensures |s| <= MinSources ==> r == s
  {
    if |s| > MinSources then s[..|s| - 1] else s
  }

  /** "Remove" undoes an "add" that found room, on any list that is not
      empty. */
  lemma AddThenRemove(s: seq<Source>)
    requires MinSources <= |s| < MaxSources
    ensures Removed(Added(s)) == s
  {
    assert Added(s)[..|s|] == s;
  }

  /** "Add" after a "remove" that popped restores the length and the kept
      prefix; the re-added emitter sits at the staggered position for that
      count, not where the popped one was. */
  lemma RemoveThenAdd(s: seq<Source>)
    requires MinSources < |s| <= MaxSources
    ensures Added(Removed(s)) == s[..|s| - 1] + [NewSource(|s| - 1)]
  {
  }

  /** A click on one of the two buttons that change the list. */
  datatype ListOp = Add | Remove

  function Apply(s: seq<Source>, op: ListOp): seq<Source>
  {
    match op
    case Add => Added(s)
    case Remove => Removed(s)
  }

  /** The list after a whole series of clicks, oldest first. */
  function ApplyAll(s: seq<Source>, ops: seq<ListOp>): seq<Source>
    decreases |ops|
  {
    if ops == [] then s else ApplyAll(Apply(s, ops[0]), ops[1..])
  }

  /** Any series of clicks keeps a list of 1 to 6 emitters within 1 to 6. */
  lemma {:induction false} ApplyAllStaysInBounds(s: seq<Source>, ops: seq<ListOp>)
    requires MinSources <= |s| <= MaxSources
    ensures MinSources <= |ApplyAll(s, ops)| <= MaxSources
    decreases |ops|
  {
    if ops != [] {
      ApplyAllStaysInBounds(Apply(s, ops[0]), ops[1..]);
    }
  }

  /** Starting from the initial three emitters, no series of clicks leaves
      fewer than one or more than six. */
  lemma InitialStaysInBounds(ops: seq<ListOp>)
    ensures MinSources <= |ApplyAll(InitialSources, ops)| <= MaxSources
  {
    ApplyAllStaysInBounds(InitialSources, ops);
  }
}
