/**
 The recorded steps: a `LinkedHashMap<String, Long>` in insertion order,
 kept as a sequence of entries with distinct labels. `put` of a new name
 appends an entry; `put` of a name already present replaces its time where
 it stands, so the order is the order in which labels were first added.
 */
module Steps {

  import opened Wrappers
  import opened Int64

  datatype Step = Step(name: string, time: Long)

  function Names(steps: seq<Step>): (r: seq<string>)
    ensures |r| == |steps|
    ensures forall k :: 0 <= k < |steps| ==> r[k] == steps[k].name
  {
    seq(|steps|, k requires 0 <= k < |steps| => steps[k].name)
  }

  /** No name occurs twice: the entries form a map. */
  predicate DistinctNames(steps: seq<Step>) {
    forall j, k :: 0 <= j < k < |steps| ==> steps[j].name != steps[k].name
  }

  /** The position of `name`, if it has an entry. */
  function IndexOf(steps: seq<Step>, name: string): (r: Option<nat>)
    ensures r.None? <==> name !in Names(steps)
    ensures r.Some? ==> r.value < |steps| && steps[r.value].name == name
    ensures r.Some? ==> forall j :: 0 <= j < r.value ==> steps[j].name != name
  {
    if |steps| == 0 then None
    else if steps[0].name == name then Some(0)
    else match IndexOf(steps[1..], name)
      case None =>
        assert Names(steps) == [steps[0].name] + Names(steps[1..]);
        None
      case Some(i) => Some(i + 1)
  }

  /** `Map.get`: the time recorded for `name`. */
  function Get(steps: seq<Step>, name: string): Option<Long> {
    match IndexOf(steps, name)
    case None => None
    case Some(i) => Some(steps[i].time)
  }

  /**
   `LinkedHashMap.put`: an existing name keeps its place and takes the new
   time; a new name is appended. No other entry changes.
   */
  function Put(steps: seq<Step>, name: string, time: Long): (r: seq<Step>)
    ensures name in Names(steps) ==> Names(r) == Names(steps)
    ensures name !in Names(steps) ==> Names(r) == Names(steps) + [name]
    ensures forall k :: 0 <= k < |steps| && steps[k].name != name ==> r[k] == steps[k]
    ensures exists k :: 0 <= k < |r| && r[k] == Step(name, time)
    ensures name !in Names(steps) ==> r[|r| - 1] == Step(name, time)
  {
    match IndexOf(steps, name)
    case Some(i) =>
      var r := steps[i := Step(name, time)];
      assert Names(r) == Names(steps);
      r
    case None =>
      var r := steps + [Step(name, time)];
      assert Names(r) == Names(steps) + [name];
      assert r[|steps|] == Step(name, time);
      r
  }

  /** Putting into a map keeps it a map. */
  lemma PutKeepsDistinct(steps: seq<Step>, name: string, time: Long)
    requires DistinctNames(steps)
    ensures DistinctNames(Put(steps, name, time))
  {
    var r := Put(steps, name, time);
    forall j, k | 0 <= j < k < |r| ensures r[j].name != r[k].name {
      assert Names(r)[j] == r[j].name && Names(r)[k] == r[k].name;
      if name !in Names(steps) && k == |steps| {
        assert Names(steps)[j] == steps[j].name;
      }
    }
  }

  /** Reading after `put`: the new time for that name, the old value for every other. */
  lemma GetAfterPut(steps: seq<Step>, name: string, time: Long, other: string)
    requires DistinctNames(steps)
    ensures Get(Put(steps, name, time), name) == Some(time)
    ensures other != name ==> Get(Put(steps, name, time), other) == Get(steps, other)
  {
    var r := Put(steps, name, time);
    PutKeepsDistinct(steps, name, time);
    var k :| 0 <= k < |r| && r[k] == Step(name, time);
    DistinctIndex(r, k);
    if other != name {
      match IndexOf(steps, other)
      case None =>
        assert other !in Names(r);
      case Some(i) =>
        assert r[i] == steps[i];
        assert Names(r)[i] == other;
        DistinctIndex(r, i);
    }
  }

  /** In a map, the entry that carries a name is the one `IndexOf` finds. */
  lemma DistinctIndex(steps: seq<Step>, k: nat)
    requires DistinctNames(steps) && k < |steps|
    ensures IndexOf(steps, steps[k].name) == Some(k)
  {
    FirstIndex(steps, steps[k].name, k);
  }

  /** `IndexOf` finds the first entry carrying the name. */
  lemma {:induction false} FirstIndex(steps: seq<Step>, name: string, k: nat)
    requires k < |steps| && steps[k].name == name
    requires forall j :: 0 <= j < k ==> steps[j].name != name
    ensures IndexOf(steps, name) == Some(k)
    decreases k
  {
    if k > 0 {
      var rest := steps[1..];
      assert steps[0].name != name;
      assert rest[k - 1] == steps[k];
      assert forall j :: 0 <= j < k - 1 ==> rest[j] == steps[j + 1];
      FirstIndex(rest, name, k - 1);
    }
  }
}
