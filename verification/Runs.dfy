/** Whole runs of puts and deletes, against a plain map. */
module Runs {
  import opened Bytes
  import opened Tree
  import opened Insert
  import opened Listing
  import opened Remove
  import opened Shadowing

  datatype Op = PutOp(key: Str, value: Str, apnd: bool) | DeleteOp(key: Str)

  /** A delete is carried out if the key is stored and its node would not be left empty
      behind an empty name. */
  predicate Accepts(t: Manifest, op: Op) {
    op.PutOp? || (Find(t.entries, op.key).Some? && !SoleEmpty(t.entries, op.key))
  }

  /** The loaded tree after one operation, as the index and the batch perform it. */
  function Step(t: Manifest, op: Op): Manifest {
    match op
    case PutOp(key, value, apnd) => PutTree(t, key, value, apnd)
    case DeleteOp(key) => if Accepts(t, op) then RemoveTree(t, key) else t
  }

  function Run(t: Manifest, ops: seq<Op>): Manifest
    decreases ops
  {
    if ops == [] then t else Run(Step(t, ops[0]), ops[1..])
  }

  /** The operations of a run that were carried out. */
  function Accepted(t: Manifest, ops: seq<Op>): seq<Op>
    decreases ops
  {
    if ops == [] then []
    else (if Accepts(t, ops[0]) then [ops[0]] else []) + Accepted(Step(t, ops[0]), ops[1..])
  }

  /** What an operation does to a plain map of value lists. */
  function MapStep(m: map<Str, Refs>, op: Op): map<Str, Refs> {
    match op
    case PutOp(key, value, apnd) => m[key := (if apnd && key in m then m[key] else []) + [value]]
    case DeleteOp(key) => m - {key}
  }

  function MapRun(m: map<Str, Refs>, ops: seq<Op>): map<Str, Refs>
    decreases ops
  {
    if ops == [] then m else MapRun(MapStep(m, ops[0]), ops[1..])
  }

  /** No put of the run hits a key that is held by an empty-named leaf. */
  predicate Shadowless(t: Manifest, ops: seq<Op>)
    decreases ops
  {
    ops == [] ||
    ((ops[0].PutOp? ==> !EmptyNamed(t.entries, ops[0].key)) && Shadowless(Step(t, ops[0]), ops[1..]))
  }

  function MapOf(t: Manifest): map<Str, Refs> {
    Contents(Leaves(t.entries))
  }

  /** The values that a put keeps, read off the map. */
  lemma KeptIsMap(t: Manifest, key: Str, apnd: bool)
    requires ValidTree(t)
    ensures Kept(t.entries, key, apnd) ==
            if apnd && key in MapOf(t) && !EmptyNamed(t.entries, key) then MapOf(t)[key] else []
  {
    LookupIsContents(t.name, t.entries, key);
  }

  lemma StepIsMapStep(t: Manifest, op: Op)
    requires ValidTree(t)
    ensures ValidTree(Step(t, op))
    ensures op.PutOp? && (op.apnd ==> !EmptyNamed(t.entries, op.key)) ==> MapOf(Step(t, op)) == MapStep(MapOf(t), op)
    ensures op.DeleteOp? && Accepts(t, op) && OneEmpty(t.entries) ==> MapOf(Step(t, op)) == MapStep(MapOf(t), op)
    ensures op.DeleteOp? && !Accepts(t, op) ==> Step(t, op) == t
    ensures OneEmpty(t.entries) && Shadowless(t, [op]) ==> OneEmpty(Step(t, op).entries)
  {
    hide Leaves, Contents, Find, SoleEmpty;
    match op
    case PutOp(key, value, apnd) =>
      PutIsMapUpdate(t.name, t.entries, key, value, apnd);
      KeptIsMap(t, key, apnd);
      if OneEmpty(t.entries) {
        OneEmptyAfterPut(t.name, t.entries, key, value, apnd);
      }
    case DeleteOp(key) =>
      RemoveIsValid(t.name, t.entries, key);
      if Accepts(t, op) {
        RemoveIsMapRemoval(t.name, t.entries, key);
      }
  }

  /** Over every run of puts, appending or not, and deletes that shadows nothing, the index is a
      map: it holds what the accepted operations leave in a plain map. */
  lemma {:induction false} RunIsMapRun(t: Manifest, ops: seq<Op>)
    requires ValidTree(t) && OneEmpty(t.entries) && Shadowless(t, ops)
    ensures ValidTree(Run(t, ops)) && OneEmpty(Run(t, ops).entries)
    ensures MapOf(Run(t, ops)) == MapRun(MapOf(t), Accepted(t, ops))
    ensures |Leaves(Run(t, ops).entries)| == |MapOf(Run(t, ops))|
    decreases ops
  {
    hide Leaves, Contents, Find, SoleEmpty, OneEmpty, ValidEntries, MapStep;
    if ops != [] {
      var op, rest := ops[0], ops[1..];
      assert Shadowless(t, [op]) by {
        assert [op][1..] == [];
      }
      StepIsMapStep(t, op);
      RunIsMapRun(Step(t, op), rest);
      var later := Accepted(Step(t, op), rest);
      if Accepts(t, op) {
        assert ([op] + later)[1..] == later;
      } else {
        assert [] + later == later;
      }
    } else {
      LeavesAscend(t.name, t.entries);
      CountIsKeys(Leaves(t.entries));
    }
  }

  /** Over every run of puts that do not append, shadowing or not, the last value put for a key
      is the one that is found. */
  lemma {:induction false} LastPutWins(t: Manifest, ops: seq<Op>)
    requires ValidTree(t) && forall i :: 0 <= i < |ops| ==> ops[i].PutOp? && !ops[i].apnd
    ensures ValidTree(Run(t, ops)) && MapOf(Run(t, ops)) == MapRun(MapOf(t), ops)
    decreases ops
  {
    hide Leaves, Contents, Find, ValidEntries, MapStep;
    if ops != [] {
      StepIsMapStep(t, ops[0]);
      LastPutWins(Step(t, ops[0]), ops[1..]);
    }
  }

  // ----- Runs of puts, said of the keys alone -----

  /** What a put does to the map of a tree that puts have built: an append to a key that is
      empty or starts another stored key loses the old values. */
  function PutStep(m: map<Str, Refs>, op: Op): map<Str, Refs>
    requires op.PutOp?
  {
    m[op.key := (if op.apnd && op.key in m && !Shadows(m, op.key) then m[op.key] else []) + [op.value]]
  }

  function PutRun(m: map<Str, Refs>, ops: seq<Op>): map<Str, Refs>
    requires forall i :: 0 <= i < |ops| ==> ops[i].PutOp?
    decreases ops
  {
    if ops == [] then m else PutRun(PutStep(m, ops[0]), ops[1..])
  }

  /** No put of the run hits a key that is empty or starts another stored key. */
  predicate ShadowlessKeys(m: map<Str, Refs>, ops: seq<Op>)
    requires forall i :: 0 <= i < |ops| ==> ops[i].PutOp?
    decreases ops
  {
    ops == [] || (!Shadows(m, ops[0].key) && ShadowlessKeys(PutStep(m, ops[0]), ops[1..]))
  }

  lemma PutStepIsMapStep(t: Manifest, op: Op)
    requires ValidTree(t) && Bushy(t.entries) && op.PutOp?
    ensures ValidTree(Step(t, op)) && Bushy(Step(t, op).entries)
    ensures MapOf(Step(t, op)) == PutStep(MapOf(t), op)
    ensures EmptyNamed(t.entries, op.key) <==> Shadows(MapOf(t), op.key)
    ensures OneEmpty(t.entries) ==> (OneEmpty(Step(t, op).entries) <==> !Shadows(MapOf(t), op.key))
  {
    hide Leaves, Contents, Bushy, OneEmpty, Shadows, Find, ValidEntries;
    PutIsMapUpdate(t.name, t.entries, op.key, op.value, op.apnd);
    KeptIsMap(t, op.key, op.apnd);
    ShadowsExactly(t.name, t.entries, op.key);
    BushyAfterPut(t.name, t.entries, op.key, op.value, op.apnd);
    if OneEmpty(t.entries) {
      OneEmptyAfterPut(t.name, t.entries, op.key, op.value, op.apnd);
    }
  }

  /** Over every run of puts whatsoever, appending or not, shadowing or not, on a tree that puts
      have built: the map is determined by the keys and values alone. */
  lemma {:induction false} PutRunIsMapRun(t: Manifest, ops: seq<Op>)
    requires ValidTree(t) && Bushy(t.entries) && forall i :: 0 <= i < |ops| ==> ops[i].PutOp?
    ensures ValidTree(Run(t, ops)) && Bushy(Run(t, ops).entries)
    ensures MapOf(Run(t, ops)) == PutRun(MapOf(t), ops)
    ensures Shadowless(t, ops) <==> ShadowlessKeys(MapOf(t), ops)
    decreases ops
  {
    hide Leaves, Contents, Bushy, Shadows, EmptyNamed, ValidEntries, PutStep, Step;
    if ops != [] {
      PutStepIsMapStep(t, ops[0]);
      PutRunIsMapRun(Step(t, ops[0]), ops[1..]);
    }
  }
}
