/**
 The typology documents that a version transition writes, and what startup recovery makes of
 them (document-upload.service.ts, typologies.service.ts).

 MongoDB runs without multi-document transactions here, so createNewVersion is a sequence of
 single-document writes. `Repair` says which state a collection of documents stands for once
 every interrupted transition is repaired.
 */
module TypologyStore {
  import opened Wrappers
  import opened Typologies

  datatype Extraction = NotUploaded | Processing | Failed

  /** `pending` names the version that is to replace this one; `file` is the key of the stored document. */
  datatype Doc = Doc(org: nat, status: TypologyStatus,
                     nombre: Option<string>, codigo: Option<string>, version: Option<string>,
                     file: Option<nat>, extraction: Extraction, softDeleted: bool, pending: Option<nat>)

  type Docs = map<nat, Doc>

  /** nombre, codigo and version are all declared. */
  predicate Complete(d: Doc) { Filled(d.nombre) && Filled(d.codigo) && Filled(d.version) }

  /** Covered by the partial unique index on (orgId, codigo). */
  predicate Indexed(d: Doc) { d.status == Active && !d.softDeleted && d.codigo.Some? }

  predicate SameCode(d: Doc, e: Doc) { d.org == e.org && d.codigo == e.codigo }

  /** The unique index refuses to store `d` under `id`. */
  predicate Collides(docs: Docs, id: nat, d: Doc) {
    Indexed(d) && exists j | j in docs :: j != id && Indexed(docs[j]) && SameCode(docs[j], d)
  }

  /** At most one ACTIVE document per organisation and code. */
  ghost predicate UniqueActive(docs: Docs) {
    forall i, j | i in docs && j in docs && i != j ::
        !(Indexed(docs[i]) && Indexed(docs[j]) && SameCode(docs[i], docs[j]))
  }

  // Interrupted transitions

  /** The document that recovery looks up for the marker on `d`: same organisation, not soft-deleted. */
  predicate Successor(docs: Docs, d: Doc, n: nat) {
    d.pending == Some(n) && n in docs && docs[n].org == d.org && !docs[n].softDeleted
  }

  /** The new version named by the marker has its file, so the transition counts as done. */
  predicate FullyWritten(docs: Docs, d: Doc) {
    d.pending.Some? && Successor(docs, d, d.pending.value) && docs[d.pending.value].file.Some?
  }

  predicate Unfinished(docs: Docs, d: Doc) { d.pending.Some? && !FullyWritten(docs, d) }

  /** A half-written new version that recovery removes. */
  predicate Doomed(docs: Docs, id: nat) {
    exists m | m in docs :: Unfinished(docs, docs[m]) && Successor(docs, docs[m], id)
  }

  /** `m` can be restored: nothing but its own half-written successor stands in for it. */
  ghost predicate Restorable(docs: Docs, m: nat)
    requires m in docs && docs[m].pending.Some?
  {
    var d, n := docs[m], docs[m].pending.value;
    && d.status == Archived && !d.softDeleted && Complete(d) && n != m
    && (n in docs ==> Indexed(docs[n]) && SameCode(docs[n], d) && docs[n].pending.None?)
    && (forall j | j in docs :: j != n && Indexed(docs[j]) ==> !SameCode(docs[j], d))
    && (forall k | k in docs && k != m :: Unfinished(docs, docs[k])
            ==> docs[k].pending != Some(n) && !SameCode(docs[k], d))
  }

  /**
   What transitions and sweeps keep true of the collection: every interrupted transition in it can
   be restored. An update or a creation that retakes the code of a stuck document breaks it.
   */
  ghost predicate WellFormed(docs: Docs) {
    && UniqueActive(docs)
    && (forall m | m in docs && docs[m].pending.Some? :: docs[m].status == Archived)
    && (forall m | m in docs && Unfinished(docs, docs[m]) :: Restorable(docs, m))
  }

  ghost function RepairDoc(docs: Docs, d: Doc): Doc {
    if Unfinished(docs, d) then d.(pending := None, status := Active) else d.(pending := None)
  }

  /** Every marker resolved: finished transitions kept, unfinished ones undone. */
  ghost function Repair(docs: Docs): Docs {
    map id | id in docs && !Doomed(docs, id) :: RepairDoc(docs, docs[id])
  }

  ghost predicate NoMarkers(docs: Docs) {
    forall m | m in docs :: docs[m].pending.None?
  }

  lemma RepairedIsStable(docs: Docs)
    requires NoMarkers(docs)
    ensures Repair(docs) == docs
  {
  }

  // The writes of a transition, in order

  /** An ACTIVE complete typology, and an id that no document has yet. */
  predicate CanStart(docs: Docs, prev: nat, succ: nat) {
    && prev in docs && docs[prev].status == Active && !docs[prev].softDeleted && Complete(docs[prev])
    && succ !in docs
  }

  /** A start that leaves the whole collection repairable: no marker names `succ`, none dooms `prev`. */
  ghost predicate Startable(docs: Docs, prev: nat, succ: nat) {
    && WellFormed(docs) && CanStart(docs, prev, succ) && !Doomed(docs, prev)
    && forall m | m in docs :: docs[m].pending != Some(succ)
  }

  ghost function Marked(docs: Docs, prev: nat, succ: nat): Docs
    requires prev in docs
  {
    docs[prev := docs[prev].(status := Archived, pending := Some(succ))]
  }

  /** The new version before its file: ACTIVE, same organisation and code, no marker. */
  ghost predicate IsDraft(d: Doc, prev: Doc) {
    Indexed(d) && SameCode(d, prev) && Complete(d) && d.pending.None? && d.file.None?
  }

  /** The collection after a successful transition. */
  ghost function Published(docs: Docs, prev: nat, succ: nat, d: Doc): Docs
    requires prev in docs
  {
    docs[prev := docs[prev].(status := Archived, pending := None)][succ := d]
  }

  /** Marking `prev` makes one more transition unfinished and dooms no stored document. */
  lemma MarkingAddsOne(docs: Docs, prev: nat, succ: nat)
    requires Startable(docs, prev, succ)
    ensures var docs' := Marked(docs, prev, succ);
            && (forall m | m in docs :: Unfinished(docs', docs'[m]) <==> m == prev || Unfinished(docs, docs[m]))
            && (forall id | id in docs :: Doomed(docs', id) <==> Doomed(docs, id))
  {
    var docs' := Marked(docs, prev, succ);
    forall id | id in docs ensures Doomed(docs', id) <==> Doomed(docs, id) {
      if Doomed(docs, id) {
        var m :| m in docs && Unfinished(docs, docs[m]) && Successor(docs, docs[m], id);
        assert Unfinished(docs', docs'[m]) && Successor(docs', docs'[m], id);
      }
    }
  }

  lemma MarkedIsRestorable(docs: Docs, prev: nat, succ: nat)
    requires Startable(docs, prev, succ)
    ensures Restorable(Marked(docs, prev, succ), prev)
  {
    MarkingAddsOne(docs, prev, succ);
    forall k | k in docs && k != prev && Unfinished(docs, docs[k]) ensures !SameCode(docs[k], docs[prev]) {
      assert Restorable(docs, k);
      assert !Successor(docs, docs[k], prev);
    }
  }

  lemma MarkingKeeps(docs: Docs, prev: nat, succ: nat)
    requires Startable(docs, prev, succ)
    ensures WellFormed(Marked(docs, prev, succ)) && Repair(Marked(docs, prev, succ)) == Repair(docs)
  {
    var docs' := Marked(docs, prev, succ);
    MarkingAddsOne(docs, prev, succ);
    MarkedIsRestorable(docs, prev, succ);
    forall m | m in docs' && m != prev && Unfinished(docs', docs'[m]) ensures Restorable(docs', m) {
      assert Restorable(docs, m);
      assert !Successor(docs, docs[m], prev);
    }
  }

  /** The draft becomes doomed itself and changes nothing about the others. */
  lemma DraftIsDoomed(marked: Docs, prev: nat, succ: nat, d: Doc)
    requires prev in marked && marked[prev].pending == Some(succ) && succ !in marked
    requires IsDraft(d, marked[prev])
    ensures var docs' := marked[succ := d];
            && Doomed(docs', succ)
            && (forall m | m in marked :: Unfinished(docs', docs'[m]) <==> Unfinished(marked, marked[m]))
            && (forall id | id in marked :: Doomed(docs', id) <==> Doomed(marked, id))
  {
    var docs' := marked[succ := d];
    assert Unfinished(docs', docs'[prev]) && Successor(docs', docs'[prev], succ);
    forall id | id in marked ensures Doomed(docs', id) <==> Doomed(marked, id) {
      if Doomed(marked, id) {
        var m :| m in marked && Unfinished(marked, marked[m]) && Successor(marked, marked[m], id);
        assert Unfinished(docs', docs'[m]) && Successor(docs', docs'[m], id);
      }
    }
  }

  lemma DraftKeeps(docs: Docs, prev: nat, succ: nat, d: Doc)
    requires Startable(docs, prev, succ) && IsDraft(d, docs[prev])
    ensures var marked := Marked(docs, prev, succ);
            && !Collides(marked, succ, d)
            && WellFormed(marked[succ := d]) && Repair(marked[succ := d]) == Repair(docs)
  {
    var marked := Marked(docs, prev, succ);
    var docs' := marked[succ := d];
    MarkingKeeps(docs, prev, succ);
    DraftIsDoomed(marked, prev, succ, d);
    forall m | m in docs' && Unfinished(docs', docs'[m]) ensures Restorable(docs', m) {
      assert Restorable(marked, m);
    }
    assert Repair(docs') == Repair(marked);
  }

  ghost function Filed(d: Doc, file: nat, extraction: Extraction): Doc {
    d.(file := Some(file), extraction := extraction)
  }

  lemma FiledIsWellFormed(docs: Docs, prev: nat, succ: nat, d: Doc, file: nat, extraction: Extraction)
    requires Startable(docs, prev, succ) && IsDraft(d, docs[prev])
    ensures var docs' := Marked(docs, prev, succ)[succ := Filed(d, file, extraction)];
            WellFormed(docs') && FullyWritten(docs', docs'[prev])
  {
    var marked := Marked(docs, prev, succ);
    var draft := marked[succ := d];
    DraftKeeps(docs, prev, succ, d);
    assert prev != succ && draft[prev].pending == Some(succ) && draft[succ] == d;
    FilingKeeps(draft, prev, succ, Filed(d, file, extraction));
    assert draft[succ := Filed(d, file, extraction)] == marked[succ := Filed(d, file, extraction)];
  }

  /** A file on a draft finishes its own transition and concerns no other. */
  lemma FilingKeeps(draft: Docs, prev: nat, succ: nat, d: Doc)
    requires WellFormed(draft) && prev in draft && Unfinished(draft, draft[prev]) && Successor(draft, draft[prev], succ)
    requires d.file.Some? && draft[succ] == d.(file := None, extraction := draft[succ].extraction)
    ensures WellFormed(draft[succ := d]) && FullyWritten(draft[succ := d], draft[succ := d][prev])
  {
    var docs' := draft[succ := d];
    assert Restorable(draft, prev);
    assert UniqueActive(docs');
    forall m | m in docs' && Unfinished(docs', docs'[m]) ensures Restorable(docs', m) {
      assert Unfinished(draft, draft[m]);
      assert Restorable(draft, m);
    }
  }

  /** Storing the file completes the transition: from here on recovery goes forward. */
  lemma FileKeeps(docs: Docs, prev: nat, succ: nat, d: Doc, file: nat, extraction: Extraction)
    requires Startable(docs, prev, succ) && IsDraft(d, docs[prev])
    ensures var d' := d.(file := Some(file), extraction := extraction);
            var docs' := Marked(docs, prev, succ)[succ := d'];
            && WellFormed(docs') && FullyWritten(docs', docs'[prev])
            && docs'[prev := docs'[prev].(pending := None)] == Published(docs, prev, succ, d')
            && WellFormed(Published(docs, prev, succ, d'))
            && Repair(docs') == Repair(Published(docs, prev, succ, d'))
  {
    FiledIsWellFormed(docs, prev, succ, d, file, extraction);
    var docs' := Marked(docs, prev, succ)[succ := Filed(d, file, extraction)];
    assert docs[prev].pending.None?;
    assert docs'[prev := docs'[prev].(pending := None)] == Published(docs, prev, succ, Filed(d, file, extraction));
    ClearingKeeps(docs', prev);
  }

  /** Recovery clears the marker of a finished transition. */
  lemma ClearingKeeps(docs: Docs, m: nat)
    requires WellFormed(docs) && m in docs && FullyWritten(docs, docs[m])
    ensures var docs' := docs[m := docs[m].(pending := None)]; WellFormed(docs') && Repair(docs') == Repair(docs)
  {
    var docs' := docs[m := docs[m].(pending := None)];
    forall k | k in docs && k != m ensures Unfinished(docs', docs'[k]) <==> Unfinished(docs, docs[k]) {}
    forall id | id in docs ensures Doomed(docs', id) <==> Doomed(docs, id) {
      if Doomed(docs, id) {
        var k :| k in docs && Unfinished(docs, docs[k]) && Successor(docs, docs[k], id);
        assert Unfinished(docs', docs'[k]) && Successor(docs', docs'[k], id);
      }
    }
    forall k | k in docs' && Unfinished(docs', docs'[k]) ensures Restorable(docs', k) {
      assert Restorable(docs, k);
    }
  }

  /** Recovery removes a half-written successor before it restores anything. */
  lemma RemovingKeeps(docs: Docs, m: nat, n: nat)
    requires WellFormed(docs) && m in docs && Unfinished(docs, docs[m]) && Successor(docs, docs[m], n)
    ensures WellFormed(docs - {n}) && Repair(docs - {n}) == Repair(docs)
  {
    var docs' := docs - {n};
    assert Restorable(docs, m);
    assert Doomed(docs, n);
    forall k | k in docs' ensures Unfinished(docs', docs'[k]) <==> Unfinished(docs, docs[k]) {}
    forall id | id in docs' ensures Doomed(docs', id) <==> Doomed(docs, id) {
      if Doomed(docs, id) {
        var k :| k in docs && Unfinished(docs, docs[k]) && Successor(docs, docs[k], id);
        assert k != n;
        assert Unfinished(docs', docs'[k]) && Successor(docs', docs'[k], id);
      }
    }
    forall k | k in docs' && Unfinished(docs', docs'[k]) ensures Restorable(docs', k) {
      assert Restorable(docs, k);
    }
  }

  /** With its successor gone, a typology goes back to ACTIVE without colliding with anything. */
  lemma RestoringKeeps(docs: Docs, m: nat)
    requires WellFormed(docs) && m in docs && docs[m].pending.Some? && docs[m].pending.value !in docs
    ensures var d := docs[m].(pending := None, status := Active);
            !Collides(docs, m, d) && WellFormed(docs[m := d]) && Repair(docs[m := d]) == Repair(docs)
  {
    var d := docs[m].(pending := None, status := Active);
    var docs' := docs[m := d];
    assert Restorable(docs, m);
    forall k | k in docs && k != m ensures Unfinished(docs', docs'[k]) <==> Unfinished(docs, docs[k]) {}
    forall id | id in docs ensures Doomed(docs', id) <==> Doomed(docs, id) {
      if Doomed(docs, id) {
        var k :| k in docs && Unfinished(docs, docs[k]) && Successor(docs, docs[k], id);
        assert k != m;
        assert Unfinished(docs', docs'[k]) && Successor(docs', docs'[k], id);
      }
    }
    forall k | k in docs' && Unfinished(docs', docs'[k]) ensures Restorable(docs', k) {
      assert Restorable(docs, k);
      assert !SameCode(docs[k], docs[m]);
      assert !Successor(docs, docs[k], m);
    }
  }
}
