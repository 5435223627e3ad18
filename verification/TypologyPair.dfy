/**
 One version transition by itself: the old version, the new one, and what the rest of the
 collection must leave alone for startup recovery to settle the two. Other documents may be
 stuck in transitions of their own, restorable or not.
 */
module TypologyPair {
  import opened Wrappers
  import opened Typologies
  import opened TypologyStore

  /** How far a transition got, as far as the documents show. */
  datatype Stage =
    | Before
    | Restored
    | Marker
    | Drafted
    | Stored(extraction: Extraction)
    | Finished(extraction: Extraction)

  /** One transition: from `start`, typology `prev` is replaced by `succ`. */
  datatype Move = Move(start: Docs, prev: nat, succ: nat, draft: Doc, key: nat)

  ghost predicate Legal(m: Move) {
    CanStart(m.start, m.prev, m.succ) && IsDraft(m.draft, m.start[m.prev])
  }

  ghost function WithFile(m: Move, x: Extraction): Doc {
    m.draft.(file := Some(m.key), extraction := x)
  }

  ghost function PrevAt(m: Move, stage: Stage): Doc
    requires m.prev in m.start
  {
    var d := m.start[m.prev];
    match stage
    case Before => d
    case Restored => d.(pending := None)
    case Finished(_) => d.(status := Archived, pending := None)
    case _ => d.(status := Archived, pending := Some(m.succ))
  }

  ghost function SuccAt(m: Move, stage: Stage): Option<Doc> {
    match stage
    case Drafted => Some(m.draft)
    case Stored(x) => Some(WithFile(m, x))
    case Finished(x) => Some(WithFile(m, x))
    case _ => None
  }

  /** The collection at a stage of `m` that nothing else has touched. */
  ghost function At(m: Move, stage: Stage): Docs
    requires m.prev in m.start
  {
    var docs := m.start[m.prev := PrevAt(m, stage)];
    if SuccAt(m, stage).Some? then docs[m.succ := SuccAt(m, stage).value] else docs
  }

  /** The two documents are at `stage`. */
  ghost predicate PairAt(docs: Docs, m: Move, stage: Stage)
    requires m.prev in m.start
  {
    && m.prev in docs && docs[m.prev] == PrevAt(m, stage)
    && (m.succ in docs <==> SuccAt(m, stage).Some?)
    && (m.succ in docs ==> docs[m.succ] == SuccAt(m, stage).value)
  }

  // What recovery needs of the rest

  /** The marker on `d` makes recovery remove neither document of the pair. */
  ghost predicate Spares(m: Move, d: Doc)
    requires m.prev in m.start
  {
    && d.pending != Some(m.succ)
    && (d.pending == Some(m.prev) && d.org == m.start[m.prev].org ==> m.start[m.prev].file.Some?)
  }

  /** A third document spares the pair and neither holds its code nor would get it back from recovery. */
  ghost predicate Harmless(docs: Docs, d: Doc, m: Move)
    requires m.prev in m.start
  {
    && Spares(m, d)
    && (SameCode(d, m.start[m.prev]) && !d.softDeleted ==> d.status != Active && !Unfinished(docs, d))
  }

  ghost predicate OthersHarmless(docs: Docs, m: Move)
    requires m.prev in m.start
  {
    forall k | k in docs && k != m.prev && k != m.succ :: Harmless(docs, docs[k], m)
  }

  /** What the transition finds around it: no third document takes its code. */
  ghost predicate Unopposed(m: Move) {
    Legal(m) && Spares(m, m.start[m.prev]) && OthersHarmless(m.start, m)
  }

  /** Where recovery takes a pair: back until the file is stored, forward from then on. */
  function EndOf(stage: Stage): Stage {
    match stage
    case Stored(x) => Finished(x)
    case Finished(x) => Finished(x)
    case _ => Restored
  }

  /** The pair is at a stage that recovery takes to `end`, and nothing stands in the way. */
  ghost predicate Towards(docs: Docs, m: Move, end: Stage) {
    && Legal(m) && Spares(m, m.start[m.prev]) && OthersHarmless(docs, m)
    && exists st :: EndOf(st) == end && PairAt(docs, m, st)
  }

  // The stages of an undisturbed transition

  lemma StagesAreUnique(m: Move, stage: Stage)
    requires Legal(m) && UniqueActive(m.start)
    ensures UniqueActive(At(m, stage))
  {
  }

  /** Nothing keeps the new version from being inserted, or from getting its file. */
  lemma SuccessorIsFree(m: Move)
    requires Legal(m) && UniqueActive(m.start)
    ensures !Collides(At(m, Marker), m.succ, m.draft)
    ensures forall x :: !Collides(At(m, Drafted), m.succ, WithFile(m, x))
    ensures forall x, y :: !Collides(At(m, Finished(x)), m.succ, WithFile(m, y))
  {
  }

  /** Wherever the transition stops, recovery has a pair to settle. */
  lemma StagesLeadOn(m: Move, stage: Stage)
    requires Unopposed(m)
    ensures Towards(At(m, stage), m, EndOf(stage))
  {
    var docs := At(m, stage);
    assert PairAt(docs, m, stage);
    forall k | k in docs && k != m.prev && k != m.succ ensures Harmless(docs, docs[k], m) {
      assert Harmless(m.start, m.start[k], m);
      assert FullyWritten(docs, docs[k]) == FullyWritten(m.start, m.start[k]);
    }
  }

  // The writes of recovery

  /** Every pair that a step on `id`, found as `doc`, can meet still leads to the same end. */
  ghost predicate KeepsPairs(before: Docs, after: Docs, id: nat, doc: Doc) {
    forall m, end | Towards(before, m, end) && (id == m.prev || Spares(m, doc)) :: Towards(after, m, end)
  }

  lemma RemovingKeepsPair(docs: Docs, id: nat, doc: Doc, n: nat, m: Move, end: Stage)
    requires Towards(docs, m, end) && (id == m.prev || Spares(m, doc)) && (id in docs ==> docs[id] == doc)
    requires Unfinished(docs, doc) && Successor(docs, doc, n)
    ensures Towards(docs - {n}, m, end)
  {
    var st :| EndOf(st) == end && PairAt(docs, m, st);
    var docs' := docs - {n};
    assert n != m.prev;
    assert n == m.succ ==> st.Drafted?;
    assert PairAt(docs', m, if n == m.succ then Marker else st);
    forall k | k in docs' && k != m.prev && k != m.succ ensures Harmless(docs', docs'[k], m) {
      assert Harmless(docs, docs[k], m);
      assert FullyWritten(docs', docs[k]) == FullyWritten(docs, docs[k]);
    }
  }

  lemma RemovingKeepsPairs(docs: Docs, id: nat, doc: Doc, n: nat)
    requires id in docs ==> docs[id] == doc
    requires Unfinished(docs, doc) && Successor(docs, doc, n)
    ensures KeepsPairs(docs, docs - {n}, id, doc)
  {
    forall m, end | Towards(docs, m, end) && (id == m.prev || Spares(m, doc)) ensures Towards(docs - {n}, m, end) {
      RemovingKeepsPair(docs, id, doc, n, m, end);
    }
  }

  /** What recovery writes to the document it found as `doc`. */
  function Settled(docs: Docs, doc: Doc): Doc {
    if FullyWritten(docs, doc) then doc.(pending := None) else doc.(status := Active, pending := None)
  }

  lemma SettlingKeepsOthers(docs: Docs, id: nat, m: Move)
    requires m.prev in m.start && id in docs && OthersHarmless(docs, m) && docs[id].pending.Some?
    ensures OthersHarmless(docs[id := Settled(docs, docs[id])], m)
  {
    var docs' := docs[id := Settled(docs, docs[id])];
    forall k | k in docs' && k != m.prev && k != m.succ ensures Harmless(docs', docs'[k], m) {
      assert Harmless(docs, docs[k], m);
      assert k != id ==> FullyWritten(docs', docs[k]) == FullyWritten(docs, docs[k]);
    }
  }

  lemma SettlingKeepsPair(docs: Docs, id: nat, m: Move, end: Stage)
    requires Towards(docs, m, end) && id in docs && docs[id].pending.Some?
    requires FullyWritten(docs, docs[id]) || !Successor(docs, docs[id], docs[id].pending.value)
    ensures Towards(docs[id := Settled(docs, docs[id])], m, end)
  {
    var st :| EndOf(st) == end && PairAt(docs, m, st);
    SettlingKeepsOthers(docs, id, m);
    assert id == m.prev ==> st.Before? || st.Marker? || st.Stored?;
    assert PairAt(docs[id := Settled(docs, docs[id])], m, if id == m.prev then end else st);
  }

  lemma SettlingKeepsPairs(docs: Docs, id: nat)
    requires id in docs && docs[id].pending.Some?
    requires FullyWritten(docs, docs[id]) || !Successor(docs, docs[id], docs[id].pending.value)
    ensures KeepsPairs(docs, docs[id := Settled(docs, docs[id])], id, docs[id])
  {
    var docs' := docs[id := Settled(docs, docs[id])];
    forall m, end | Towards(docs, m, end) && (id == m.prev || Spares(m, docs[id])) ensures Towards(docs', m, end) {
      SettlingKeepsPair(docs, id, m, end);
    }
  }

  /** The write that settles a pair meets no other ACTIVE document of its code. */
  lemma SettlingIsFree(docs: Docs, m: Move, end: Stage)
    requires UniqueActive(docs) && Towards(docs, m, end) && docs[m.prev].pending.Some?
    requires FullyWritten(docs, docs[m.prev]) || !Successor(docs, docs[m.prev], docs[m.prev].pending.value)
    ensures !Collides(docs, m.prev, Settled(docs, docs[m.prev]))
  {
    var st :| EndOf(st) == end && PairAt(docs, m, st);
    assert st.Before? || st.Marker? || st.Stored?;
    forall j | j in docs && j != m.prev && Indexed(docs[j]) ensures st.Stored? || !SameCode(docs[j], docs[m.prev]) {
      assert j != m.succ ==> Harmless(docs, docs[j], m);
    }
  }

  /** With its marker gone, a pair is where it was going. */
  lemma UnmarkedIsSettled(docs: Docs, m: Move, end: Stage)
    requires Towards(docs, m, end) && docs[m.prev].pending.None?
    ensures PairAt(docs, m, end)
  {
    var st :| EndOf(st) == end && PairAt(docs, m, st);
  }

  // A code that is taken

  /** The marker on `d` does not make recovery remove document `x`, stored as `dx`. */
  ghost predicate Leaves(d: Doc, x: nat, dx: Doc) {
    d.pending == Some(x) && d.org == dx.org && !dx.softDeleted ==> dx.file.Some?
  }

  /** The unfinished transition of `x` cannot be undone: `j` is ACTIVE under its code, and no marker removes the two. */
  ghost predicate Taken(docs: Docs, x: nat, j: nat) {
    && x in docs && j in docs && x != j
    && Unfinished(docs, docs[x]) && !docs[x].softDeleted
    && Indexed(docs[j]) && SameCode(docs[j], docs[x])
    && forall k | k in docs :: Leaves(docs[k], x, docs[x]) && Leaves(docs[k], j, docs[j])
  }

  /** A creation can take the code of a version transition that died before its new version was inserted. */
  lemma CreationCanTake(m: Move, j: nat, d: Doc)
    requires Unopposed(m) && UniqueActive(m.start) && j !in m.start && j != m.succ
    requires Indexed(d) && SameCode(d, m.start[m.prev]) && d.pending.None?
    requires forall k | k in m.start :: m.start[k].pending != Some(j)
    ensures !Collides(At(m, Marker), j, d) && Taken(At(m, Marker)[j := d], m.prev, j)
  {
    var docs := At(m, Marker)[j := d];
    forall k | k in docs ensures Leaves(docs[k], m.prev, docs[m.prev]) && Leaves(docs[k], j, docs[j]) {
      assert k != m.prev && k != j ==> Harmless(m.start, m.start[k], m);
    }
  }

  ghost predicate SameBody(d: Doc, e: Doc) { d.org == e.org && d.file == e.file && d.softDeleted == e.softDeleted }

  /** Every stuck document whose code is taken stays as it is in a step on `id`, found as `doc`. */
  ghost predicate KeepsTaken(before: Docs, after: Docs, id: nat, doc: Doc) {
    forall x, j | Taken(before, x, j) && Leaves(doc, x, before[x]) && Leaves(doc, j, before[j]) ::
      Taken(after, x, j) && after[x] == before[x] && SameBody(after[j], before[j])
  }

  lemma RemovingKeepsTaken(docs: Docs, id: nat, doc: Doc, n: nat)
    requires Unfinished(docs, doc) && Successor(docs, doc, n)
    ensures KeepsTaken(docs, docs - {n}, id, doc)
  {
    var docs' := docs - {n};
    forall x, j | Taken(docs, x, j) && Leaves(doc, x, docs[x]) && Leaves(doc, j, docs[j]) ensures Taken(docs', x, j) {
      assert n != x && n != j;
    }
  }

  /** Settling another document leaves it stuck, and settling it is refused. */
  lemma SettlingKeepsTaken(docs: Docs, id: nat)
    requires id in docs && docs[id].pending.Some?
    ensures var d := Settled(docs, docs[id]);
            Collides(docs, id, d) || KeepsTaken(docs, docs[id := d], id, docs[id])
  {
    var d := Settled(docs, docs[id]);
    var docs' := docs[id := d];
    if !Collides(docs, id, d) {
      forall x, j | Taken(docs, x, j) && Leaves(docs[id], x, docs[x]) && Leaves(docs[id], j, docs[j])
        ensures Taken(docs', x, j) && docs'[x] == docs[x] && SameBody(docs'[j], docs[j])
      {
        assert id != x;
        assert FullyWritten(docs', docs[x]) == FullyWritten(docs, docs[x]);
      }
    }
  }

  /** Back where it began: the old version ACTIVE, no new document, no marker. */
  predicate RolledBack(start: Docs, docs: Docs, prev: nat, succ: nat)
    requires prev in start
  {
    && prev in docs && docs[prev] == start[prev].(pending := None) && docs[prev].status == Active
    && succ !in docs
  }

  /** Replaced: the old version ARCHIVED, the new one ACTIVE under the same code with its file, no marker. */
  predicate Replaced(start: Docs, docs: Docs, prev: nat, succ: nat, key: nat)
    requires prev in start
  {
    && prev in docs && docs[prev] == start[prev].(status := Archived, pending := None)
    && succ in docs && Indexed(docs[succ]) && SameCode(docs[succ], docs[prev])
    && docs[succ].file == Some(key) && docs[succ].pending.None?
  }

  lemma EndsAreTheTwo(docs: Docs, m: Move, st: Stage)
    requires Legal(m) && PairAt(docs, m, EndOf(st))
    ensures EndOf(st).Restored? || EndOf(st).Finished?
    ensures EndOf(st).Restored? ==> RolledBack(m.start, docs, m.prev, m.succ)
    ensures EndOf(st).Finished? ==> Replaced(m.start, docs, m.prev, m.succ, m.key)
  {
  }
}
