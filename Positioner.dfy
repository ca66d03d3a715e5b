/**
 * The loop of action_triggered: for each (name, (x, y)) of the ordered
 * positions table, look the name up below the document's root node; skip
 * the entry when nothing is found; move the node to (x, y) when it is a
 * transform mask; and advance the progress counter for every name found.
 *
 * The host's effects are recorded instead of performed: a Move is appended
 * where the source calls mask.move(x, y), and a counter field is incremented
 * where it calls progress.setValue(progress.value() + 1).
 */
module Positioner {
  import opened Wrappers
  import opened MaskSearch

  /** The node type string of a transform mask. */
  const TransformMaskKind: string := "transformationmask"

  /** One entry of the positions table: a node name and its target point. */
  type Entry = (string, (int, int))

  /** A call mask.move(x, y) on the node called name. */
  datatype Move = Move(name: string, x: int, y: int)

  predicate IsTransformMask(found: Option<Node>) {
    found.Some? && found.value.kind == TransformMaskKind
  }

  /** The move an entry asks for: to its absolute target point. */
  function MoveTo(e: Entry): Move {
    Move(e.0, e.1.0, e.1.1)
  }

  /** The moves one entry issues. */
  function StepMoves(root: Node, e: Entry): seq<Move> {
    if IsTransformMask(FindMask(root, e.0)) then [MoveTo(e)] else []
  }

  /** How far one entry advances the progress counter. */
  function StepProgress(root: Node, e: Entry): nat {
    if FindMask(root, e.0).Some? then 1 else 0
  }

  /** The moves the loop issues for the entries ps, in order. */
  function Plan(root: Node, ps: seq<Entry>): seq<Move> {
    if ps == [] then [] else Plan(root, ps[..|ps| - 1]) + StepMoves(root, ps[|ps| - 1])
  }

  /** How far the loop advances the progress counter over the entries ps. */
  function Progress(root: Node, ps: seq<Entry>): nat {
    if ps == [] then 0 else Progress(root, ps[..|ps| - 1]) + StepProgress(root, ps[|ps| - 1])
  }

  /** The indices of ps whose entries issue a move, in the order issued. */
  ghost function MoveSources(root: Node, ps: seq<Entry>): seq<nat> {
    if ps == [] then []
    else MoveSources(root, ps[..|ps| - 1]) +
         (if IsTransformMask(FindMask(root, ps[|ps| - 1].0)) then [|ps| - 1] else [])
  }

  /** For each entry of ps, whether its name is found in the tree. */
  ghost function FoundFlags(root: Node, ps: seq<Entry>): seq<bool> {
    seq(|ps|, i requires 0 <= i < |ps| => FindMask(root, ps[i].0).Some?)
  }

  ghost function TrueIndices(flags: seq<bool>): set<nat> {
    set i: nat | i < |flags| && flags[i]
  }

  /** The indices of ps whose names are found in the tree. */
  ghost function FoundIndices(root: Node, ps: seq<Entry>): set<nat> {
    TrueIndices(FoundFlags(root, ps))
  }

  lemma TrueIndicesSnoc(flags: seq<bool>)
    requires flags != []
    ensures var n := |flags| - 1;
            |TrueIndices(flags)| == |TrueIndices(flags[..n])| + (if flags[n] then 1 else 0)
  {
    var n := |flags| - 1;
    var before := TrueIndices(flags[..n]);
    var last: set<nat> := if flags[n] then {n} else {};
    assert TrueIndices(flags) == before + last;
    assert before !! last;
  }

  /** The moves issued are exactly the entries whose name is found as a
      transform mask, each with the entry's own absolute point, in the order
      of the table. */
  lemma {:induction false} PlanIsOrderedSelection(root: Node, ps: seq<Entry>)
    ensures |MoveSources(root, ps)| == |Plan(root, ps)|
    ensures forall k :: 0 <= k < |MoveSources(root, ps)| ==>
              var i := MoveSources(root, ps)[k];
              i < |ps| && IsTransformMask(FindMask(root, ps[i].0)) &&
              Plan(root, ps)[k] == MoveTo(ps[i])
    ensures forall k, l :: 0 <= k < l < |MoveSources(root, ps)| ==>
              MoveSources(root, ps)[k] < MoveSources(root, ps)[l]
    ensures forall i :: 0 <= i < |ps| && IsTransformMask(FindMask(root, ps[i].0)) ==>
              i in MoveSources(root, ps)
  {
    if ps != [] {
      var n := |ps| - 1;
      var init := ps[..n];
      PlanIsOrderedSelection(root, init);
      assert forall i :: 0 <= i < n ==> init[i] == ps[i];
    }
  }

  /** The counter advances once for every name found, whatever its type. */
  lemma {:induction false} ProgressCountsFoundNames(root: Node, ps: seq<Entry>)
    ensures Progress(root, ps) == |FoundIndices(root, ps)|
  {
    if ps != [] {
      var n := |ps| - 1;
      ProgressCountsFoundNames(root, ps[..n]);
      assert FoundFlags(root, ps)[..n] == FoundFlags(root, ps[..n]);
      TrueIndicesSnoc(FoundFlags(root, ps));
    }
  }

  /** A move is issued only for a name that also advances the counter. */
  lemma {:induction false} MovesWithinProgress(root: Node, ps: seq<Entry>)
    ensures |Plan(root, ps)| <= Progress(root, ps) <= |ps|
  {
    if ps != [] {
      MovesWithinProgress(root, ps[..|ps| - 1]);
    }
  }

  lemma {:induction false} PlanConcat(root: Node, a: seq<Entry>, b: seq<Entry>)
    ensures Plan(root, a + b) == Plan(root, a) + Plan(root, b)
    ensures Progress(root, a + b) == Progress(root, a) + Progress(root, b)
  {
    if b == [] {
      assert a + b == a;
    } else {
      var n := |b| - 1;
      assert (a + b)[..|a + b| - 1] == a + b[..n];
      PlanConcat(root, a, b[..n]);
    }
  }

  /** An entry whose name is not in the tree is skipped: the loop carries on
      with the later entries as if it were not there. */
  lemma MissingNameSkipped(root: Node, a: seq<Entry>, e: Entry, b: seq<Entry>)
    requires FindMask(root, e.0).None?
    ensures Plan(root, a + [e] + b) == Plan(root, a + b)
    ensures Progress(root, a + [e] + b) == Progress(root, a + b)
  {
    PlanConcat(root, a + [e], b);
    PlanConcat(root, a, [e]);
    PlanConcat(root, a, b);
    assert Plan(root, [e]) == Plan(root, []) + StepMoves(root, e);
  }

  /** A name found on a node that is not a transform mask issues no move but
      still advances the counter. */
  lemma FoundNonMaskCounted(root: Node, a: seq<Entry>, e: Entry, b: seq<Entry>)
    requires FindMask(root, e.0).Some? && FindMask(root, e.0).value.kind != TransformMaskKind
    ensures Plan(root, a + [e] + b) == Plan(root, a + b)
    ensures Progress(root, a + [e] + b) == Progress(root, a + b) + 1
  {
    PlanConcat(root, a + [e], b);
    PlanConcat(root, a, [e]);
    PlanConcat(root, a, b);
    assert [e][..0] == [];
    assert StepMoves(root, e) == [];
    assert Plan(root, [e]) == [];
    assert Progress(root, [e]) == 1;
    assert Plan(root, a + [e]) == Plan(root, a);
  }

  /** A name found on a transform mask issues its move, between the moves of
      the earlier and the later entries, and advances the counter. */
  lemma FoundMaskMoved(root: Node, a: seq<Entry>, e: Entry, b: seq<Entry>)
    requires IsTransformMask(FindMask(root, e.0))
    ensures Plan(root, a + [e] + b) == Plan(root, a) + [MoveTo(e)] + Plan(root, b)
    ensures Progress(root, a + [e] + b) == Progress(root, a) + 1 + Progress(root, b)
  {
    PlanConcat(root, a + [e], b);
    PlanConcat(root, a, [e]);
    assert Plan(root, [e]) == Plan(root, []) + StepMoves(root, e);
    assert Progress(root, [e]) == Progress(root, []) + StepProgress(root, e);
  }

  /** The extension object, reduced to what its positioning loop changes:
      the moves issued so far on the host (they persist from one run to the
      next) and the counter of the progress dialog of the latest run (each run
      opens a new dialog, so it starts again from zero). */
  class MaskPositioner {
    var moves: seq<Move>
    var progress: nat

    constructor ()
      ensures moves == [] && progress == 0
    {
      moves := [];
      progress := 0;
    }

    /** action_triggered on the document whose root node is doc (None when
        no document is open, in which case nothing happens and no dialog
        is opened). */
    method ActionTriggered(doc: Option<Node>, positions: seq<Entry>)
      modifies this
      ensures doc.None? ==> moves == old(moves) && progress == old(progress)
      ensures doc.Some? ==> moves == old(moves) + Plan(doc.value, positions)
      ensures doc.Some? ==> progress == Progress(doc.value, positions)
    {
      if doc.None? {
        return;
      }
      progress := 0;
      var root := doc.value;
      var i := 0;
      while i < |positions|
        invariant 0 <= i <= |positions|
        invariant moves == old(moves) + Plan(root, positions[..i])
        invariant progress == Progress(root, positions[..i])
      {
        var (name, (x, y)) := positions[i];
        assert positions[..i + 1][..i] == positions[..i];
        var mask := FindMask(root, name);
        if mask.None? {
          i := i + 1;
          continue;
        }
        if mask.value.kind == TransformMaskKind {
          moves := moves + [Move(name, x, y)];
        }
        progress := progress + 1;
        i := i + 1;
      }
      assert positions[..i] == positions;
    }
  }
}
