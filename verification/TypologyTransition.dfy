/**
 createNewVersion and the startup sweep reconcilePendingVersionTransitions, write by write.

 Every database or storage call takes its fate from a script: it works, it fails, it takes
 effect but reports a failure, or the process dies just before or just after it.
 */
module TypologyTransition {
  import opened Wrappers
  import opened Text
  import Versions
  import opened Typologies
  import opened TypologyStore
  import opened TypologyPair

  datatype Fault = Fine | Fails | LostAck | DiesBefore | DiesAfter

  datatype Outcome = Saved | Refused | Dead

  /** What a reader of the calls could tell afterwards: an unacknowledged write, a file removed. */
  datatype Note = LostWrite(id: nat, d: Doc) | RemovedFile(key: nat)

  /** The fate of the next call; calls beyond the script work. */
  function Head(faults: seq<Fault>): Fault { if faults == [] then Fine else faults[0] }

  function Rest(faults: seq<Fault>): seq<Fault> { if faults == [] then [] else faults[1..] }

  /**
   The write that records the file takes effect without being acknowledged, the file is removed,
   and the new version is not.
   */
  function LosingScript(): seq<Fault> { [Fine, Fine, Fine, LostAck, Fine, Fails] }

  /** Everything works but the event for the extraction. */
  function UnsentScript(): seq<Fault> { [Fine, Fine, Fine, Fine, Fine, Fails] }

  datatype Error = NotFound | BadFile | NotOneIncrement | Interrupted

  /** The document that createNewVersion creates, before its file. */
  function Draft(prev: Doc, nombre: Option<string>, version: Option<string>): Doc {
    var n := if TrimOrNone(nombre).Some? then TrimOrNone(nombre) else prev.nombre;
    var v := if TrimOrNone(version).Some? then TrimOrNone(version) else prev.version;
    var status := if Filled(n) && Filled(prev.codigo) && Filled(v) then Active else Incomplete;
    Doc(prev.org, status, n, prev.codigo, v, None, NotUploaded, false, None)
  }

  /** The trimmed request, or what the old version has if the request is blank. */
  ghost predicate Takes(value: Option<string>, requested: Option<string>, previous: Option<string>) {
    value == if requested.Some? && Trim(requested.value) != "" then Some(Trim(requested.value)) else previous
  }

  /** What a new version declares: the requested name and version, everything else as the old one. */
  ghost predicate Declares(d: Doc, prev: Doc, nombre: Option<string>, version: Option<string>) {
    && d.org == prev.org && d.codigo == prev.codigo && d.status == Active && !d.softDeleted
    && Takes(d.nombre, nombre, prev.nombre) && Takes(d.version, version, prev.version)
  }

  predicate Found(docs: Docs, org: nat, id: nat) {
    id in docs && docs[id].org == org && !docs[id].softDeleted
  }

  /** The documents stand for the state before the transition. */
  ghost predicate Undone(docs: Docs, start: Docs) {
    Repair(docs) == Repair(start)
  }

  /** The documents stand for the finished transition, the new version holding its file. */
  ghost predicate Done(docs: Docs, m: Move)
    requires m.prev in m.start
  {
    exists x :: Repair(docs) == Repair(At(m, Finished(x)))
  }

  /**
   From a repairable collection every stage is repairable; recovery goes back up to the draft and
   forward from the stored file.
   */
  lemma StageIsSound(m: Move, stage: Stage)
    requires Legal(m) && Startable(m.start, m.prev, m.succ)
    ensures WellFormed(At(m, stage))
    ensures EndOf(stage) == Restored ==> Undone(At(m, stage), m.start)
    ensures EndOf(stage) != Restored ==> Done(At(m, stage), m)
  {
    assert m.start[m.prev].pending.None?;
    MarkingKeeps(m.start, m.prev, m.succ);
    DraftKeeps(m.start, m.prev, m.succ, m.draft);
    match stage
    case Before => assert At(m, stage) == m.start;
    case Restored => assert At(m, stage) == m.start;
    case Marker => assert At(m, stage) == Marked(m.start, m.prev, m.succ);
    case Drafted => assert At(m, stage) == Marked(m.start, m.prev, m.succ)[m.succ := m.draft];
    case _ => StoredIsSound(m, stage.extraction);
  }

  lemma StoredIsSound(m: Move, x: Extraction)
    requires Legal(m) && Startable(m.start, m.prev, m.succ)
    ensures WellFormed(At(m, Stored(x))) && WellFormed(At(m, Finished(x)))
    ensures Repair(At(m, Stored(x))) == Repair(At(m, Finished(x)))
  {
    FileKeeps(m.start, m.prev, m.succ, m.draft, m.key, x);
    assert At(m, Stored(x)) == Marked(m.start, m.prev, m.succ)[m.succ := WithFile(m, x)];
    assert At(m, Finished(x)) == Published(m.start, m.prev, m.succ, WithFile(m, x));
  }

  lemma DraftIsDraft(prev: Doc, nombre: Option<string>, version: Option<string>)
    requires Complete(prev)
    ensures IsDraft(Draft(prev, nombre, version), prev)
  {
  }

  /** Since `before`, the write recording the file was not acknowledged, and the file was then removed. */
  ghost predicate FileLost(before: seq<Note>, notes: seq<Note>, m: Move) {
    exists i, j :: |before| <= i < j < |notes|
      && notes[i] == LostWrite(m.succ, WithFile(m, Processing)) && notes[j] == RemovedFile(m.key)
  }

  lemma NoneLostSince(before: seq<Note>, middle: seq<Note>, notes: seq<Note>, m: Move)
    requires middle <= notes && forall k :: |middle| <= k < |notes| ==> notes[k].LostWrite?
    ensures FileLost(before, notes, m) <==> FileLost(before, middle, m)
  {
  }

  class DocumentService {
    var docs: Docs
    var files: set<nat>
    var faults: seq<Fault>
    var dead: bool
    ghost var notes: seq<Note>
    ghost var history: seq<Docs>

    constructor (docs: Docs, faults: seq<Fault>)
      ensures this.docs == docs && this.faults == faults && !dead && files == {} && notes == [] && history == []
    {
      this.docs, this.faults, this.dead := docs, faults, false;
      this.files, this.notes, this.history := {}, [], [];
    }

    /** No call will fail any more. */
    ghost predicate Reliable()
      reads this
    {
      forall i :: 0 <= i < |faults| ==> faults[i] == Fine
    }

    /** Since `before`, no two ACTIVE documents shared a code, and a tidy collection stayed repairable. */
    ghost predicate KeptOrder(before: seq<Docs>, tidy: bool)
      reads this
    {
      && before <= history
      && forall k :: |before| <= k < |history| ==> UniqueActive(history[k]) && (tidy ==> WellFormed(history[k]))
    }

    /** Since `before`, no file was removed. */
    ghost predicate NothingRemoved(before: seq<Note>)
      reads this
    {
      before <= notes && forall k :: |before| <= k < |notes| ==> notes[k].LostWrite?
    }

    /** The new version has its file, except exactly if the service removed it after such a write. */
    ghost predicate FileKept(before: seq<Note>, m: Move)
      reads this
    {
      before <= notes && (m.key in files <==> !FileLost(before, notes, m))
    }

    /** Since `before`, the collection went through stages of `m` only. */
    ghost predicate KeptStages(before: seq<Docs>, m: Move)
      requires m.prev in m.start
      reads this
    {
      before <= history && forall k :: |before| <= k < |history| ==> exists st :: history[k] == At(m, st)
    }

    method NextFault() returns (f: Fault)
      modifies this`faults
      ensures f == Head(old(faults)) && faults == Rest(old(faults))
      ensures old(Reliable()) ==> Reliable() && f == Fine
    {
      if faults == [] {
        f := Fine;
      } else {
        f := faults[0];
        faults := faults[1..];
      }
    }

    /**
     Document.save(): inserts a new document or updates a stored one. The unique index may refuse
     the write, and so does an update whose document is gone.
     */
    method SaveDoc(id: nat, d: Doc, isNew: bool) returns (o: Outcome)
      requires !dead
      modifies this`docs, this`faults, this`dead, this`notes, this`history
      ensures dead <==> o == Dead
      ensures docs == old(docs)
              || (docs == old(docs)[id := d] && !Collides(old(docs), id, d) && isNew == (id !in old(docs)))
      ensures o == Saved ==> docs == old(docs)[id := d] && notes == old(notes)
      ensures o == Refused ==> docs == old(docs) || notes == old(notes) + [LostWrite(id, d)]
      ensures NothingRemoved(old(notes)) && history == old(history) + [docs]
      ensures faults == Rest(old(faults)) && (o == Dead <==> Head(old(faults)) in {DiesBefore, DiesAfter})
      ensures !Collides(old(docs), id, d) && isNew == (id !in old(docs)) ==>
                && (Head(old(faults)) == Fine ==> o == Saved)
                && (Head(old(faults)) == LostAck ==>
                      docs == old(docs)[id := d] && notes == old(notes) + [LostWrite(id, d)])
      ensures UniqueActive(old(docs)) ==> UniqueActive(docs)
      ensures old(Reliable()) ==>
                && Reliable() && o != Dead
                && (o == Saved <==> !Collides(old(docs), id, d) && isNew == (id !in old(docs)))
    {
      var f := NextFault();
      var lands := !Collides(docs, id, d) && isNew == (id !in docs) && f != Fails && f != DiesBefore;
      if lands {
        docs := docs[id := d];
        notes := if f == LostAck then notes + [LostWrite(id, d)] else notes;
      }
      dead := f == DiesBefore || f == DiesAfter;
      o := if dead then Dead else if lands && f == Fine then Saved else Refused;
      history := history + [docs];
    }

    /** deleteOne(): `Saved` means acknowledged; an unacknowledged delete may or may not have happened. */
    method DeleteDoc(id: nat) returns (o: Outcome)
      requires !dead
      modifies this`docs, this`faults, this`dead, this`history
      ensures dead <==> o == Dead
      ensures docs == old(docs) || docs == old(docs) - {id}
      ensures o == Saved ==> docs == old(docs) - {id}
      ensures Head(old(faults)) == Fails ==> docs == old(docs) && o == Refused
      ensures history == old(history) + [docs]
      ensures UniqueActive(old(docs)) ==> UniqueActive(docs)
      ensures old(Reliable()) ==> Reliable() && o == Saved
    {
      var f := NextFault();
      dead := f == DiesBefore || f == DiesAfter;
      o := if f == Fine then Saved else if dead then Dead else Refused;
      if f != Fails && f != DiesBefore {
        docs := docs - {id};
      }
      history := history + [docs];
    }

    method StoreFile(key: nat) returns (o: Outcome)
      requires !dead
      modifies this`files, this`faults, this`dead
      ensures dead <==> o == Dead
      ensures o == Saved ==> files == old(files) + {key}
      ensures faults == Rest(old(faults)) && (o == Saved <==> Head(old(faults)) == Fine)
      ensures old(Reliable()) ==> Reliable() && o == Saved
    {
      var f := NextFault();
      dead := f == DiesBefore || f == DiesAfter;
      o := if f == Fine then Saved else if dead then Dead else Refused;
      if f != Fails && f != DiesBefore {
        files := files + {key};
      }
    }

    /** Best-effort removal of an uploaded file. */
    method RemoveFile(key: nat)
      requires !dead
      modifies this`files, this`faults, this`dead, this`notes
      ensures || (files == old(files) && notes == old(notes))
              || (files == old(files) - {key} && notes == old(notes) + [RemovedFile(key)])
      ensures faults == Rest(old(faults)) && (Head(old(faults)) == Fine ==> files == old(files) - {key} && !dead)
      ensures old(Reliable()) ==> Reliable() && !dead
    {
      var f := NextFault();
      dead := f == DiesBefore || f == DiesAfter;
      if f != Fails && f != DiesBefore {
        files := files - {key};
        notes := notes + [RemovedFile(key)];
      }
    }

    /** A call without effect on documents or files: an event emission or a read. */
    method Call() returns (o: Outcome)
      requires !dead
      modifies this`faults, this`dead
      ensures faults == Rest(old(faults)) && (Head(old(faults)) == Fails ==> o == Refused)
      ensures dead <==> o == Dead
      ensures old(Reliable()) ==> Reliable() && o == Saved
    {
      var f := NextFault();
      dead := f == DiesBefore || f == DiesAfter;
      o := if f == Fine then Saved else if dead then Dead else Refused;
    }

    /** Best-effort restore of the archived typology. */
    method RestoreOldActive(id: nat, archived: Doc, ghost m: Move)
      requires !dead && Legal(m) && m.prev == id
      requires archived == m.start[id].(status := Archived, pending := Some(m.succ))
      requires docs == At(m, Marker) || docs == At(m, Drafted)
      modifies this`docs, this`faults, this`dead, this`notes, this`history
      ensures KeptStages(old(history), m) && NothingRemoved(old(notes))
      ensures docs == At(m, Restored) || docs == old(docs)
    {
      var restored := archived.(status := Active, pending := None);
      assert restored == PrevAt(m, Restored);
      if docs == At(m, Drafted) {
        assert Indexed(docs[m.succ]) && SameCode(docs[m.succ], restored);
      } else {
        assert docs[id := restored] == At(m, Restored);
      }
      var o := SaveDoc(id, restored, false);
    }

    /** Removes the broken new version and, only if that is confirmed, restores the old one. */
    method RollbackFailedVersionWrite(succ: nat, id: nat, archived: Doc, ghost m: Move)
      requires !dead && Legal(m) && m.prev == id && m.succ == succ
      requires archived == m.start[id].(status := Archived, pending := Some(succ))
      requires docs == At(m, Drafted) || docs == At(m, Stored(Processing))
      modifies this`docs, this`faults, this`dead, this`notes, this`history
      ensures KeptStages(old(history), m) && NothingRemoved(old(notes))
      ensures docs in {At(m, Restored), At(m, Marker)} || docs == old(docs)
      ensures Head(old(faults)) == Fails ==> docs == old(docs)
    {
      assert docs - {succ} == At(m, Marker);
      var o := DeleteDoc(succ);
      if o == Saved {
        RestoreOldActive(id, archived, m);
      }
    }

    /** Steps 3 and 4: upload the file and store its key in the new version. */
    method AttachFile(id: nat, archived: Doc, draft: Doc, succ: nat, key: nat, ghost m: Move) returns (o: Outcome)
      requires !dead && Legal(m) && m == Move(m.start, id, succ, draft, key) && docs == At(m, Drafted)
      requires archived == m.start[id].(status := Archived, pending := Some(succ))
      modifies this`docs, this`files, this`faults, this`dead, this`notes, this`history
      ensures KeptStages(old(history), m) && old(notes) <= notes
              && (o == Dead ==> dead) && (o == Saved ==> !dead)
      ensures o == Saved ==> docs == At(m, Stored(Processing)) && key in files && notes == old(notes)
      ensures o != Saved ==> docs in {At(m, Restored), At(m, Marker), At(m, Drafted)}
                             || (docs == At(m, Stored(Processing)) && FileKept(old(notes), m))
      ensures old(Reliable()) && !Collides(At(m, Drafted), succ, WithFile(m, Processing)) ==> Reliable() && o == Saved
      ensures old(faults) == [Fine, Fine, Fine, Fails]
              && !Collides(At(m, Drafted), succ, WithFile(m, Processing)) ==>
                o == Saved && faults == [Fine, Fails]
      ensures old(faults) == [Fine, LostAck, Fine, Fails]
              && !Collides(At(m, Drafted), succ, WithFile(m, Processing)) ==>
                o == Refused && docs == At(m, Stored(Processing)) && key !in files
    {
      o := StoreFile(key);
      if o == Refused {
        RollbackFailedVersionWrite(succ, id, archived, m);
      }
      if o != Saved {
        return;
      }
      assert old(faults) == [Fine, LostAck, Fine, Fails] ==> faults == [LostAck, Fine, Fails];
      assert old(faults) == [Fine, Fine, Fine, Fails] ==> faults == [Fine, Fine, Fails];
      var stored := draft.(file := Some(key), extraction := Processing);
      assert docs[succ := stored] == At(m, Stored(Processing));
      o := SaveDoc(succ, stored, false);
      if o == Refused {
        assert docs == At(m, Drafted) || notes[|old(notes)|] == LostWrite(succ, stored);
        assert old(faults) == [Fine, LostAck, Fine, Fails] ==> faults == [Fine, Fails];
        DiscardFile(id, archived, succ, key, m);
      }
    }

    /** The save that records the file failed: the file and the new version go, both as far as possible. */
    method DiscardFile(id: nat, archived: Doc, succ: nat, key: nat, ghost m: Move)
      requires !dead && key in files && Legal(m) && m.prev == id && m.succ == succ
      requires archived == m.start[id].(status := Archived, pending := Some(succ))
      requires docs == At(m, Drafted) || docs == At(m, Stored(Processing))
      modifies this`docs, this`files, this`faults, this`dead, this`notes, this`history
      ensures KeptStages(old(history), m) && old(notes) <= notes
      ensures docs in {At(m, Restored), At(m, Marker)} || docs == old(docs)
      ensures key in files ==> NothingRemoved(old(notes))
      ensures key !in files ==> |old(notes)| < |notes| && notes[|old(notes)|] == RemovedFile(key)
      ensures old(faults) == [Fine, Fails] ==> docs == old(docs) && key !in files
    {
      RemoveFile(key);
      if !dead {
        RollbackFailedVersionWrite(succ, id, archived, m);
      }
    }

    /** Clears the marker and emits the extraction event; neither failure undoes the transition. */
    method CompleteTransition(id: nat, archived: Doc, stored: Doc, succ: nat, ghost m: Move)
      requires !dead && Legal(m) && m.prev == id && m.succ == succ && stored == WithFile(m, Processing)
      requires archived == m.start[id].(status := Archived, pending := Some(succ))
      requires docs == At(m, Stored(Processing))
      modifies this`docs, this`faults, this`dead, this`notes, this`history
      ensures KeptStages(old(history), m) && NothingRemoved(old(notes))
      ensures exists x :: docs == At(m, Stored(x)) || docs == At(m, Finished(x))
      ensures old(Reliable()) ==> !dead && docs == At(m, Finished(Processing))
      ensures old(faults) == [Fine, Fails]
              && !Collides(At(m, Finished(Processing)), succ, WithFile(m, Failed)) ==>
                !dead && docs == At(m, Finished(Failed))
    {
      assert docs[id := archived.(pending := None)] == At(m, Finished(Processing));
      var o := SaveDoc(id, archived.(pending := None), false);
      if o == Dead {
        return;
      }
      o := Call();
      if o == Refused {
        var failed := stored.(extraction := Failed);
        assert At(m, Stored(Processing))[succ := failed] == At(m, Stored(Failed));
        assert At(m, Finished(Processing))[succ := failed] == At(m, Finished(Failed));
        o := SaveDoc(succ, failed, false);
      }
    }

    /**
     Archives the current version and puts a new one with the same code in its place. Whatever
     fails and wherever the process dies, the documents show one stage of this transition and no
     other change, and no two ACTIVE documents shared a code at any moment.
     */
    method CreateNewVersion(org: nat, id: nat, succ: nat, key: nat, fileAccepted: bool,
                            nombre: Option<string>, version: Option<string>)
      returns (r: Result<nat, Error>)
      requires !dead && UniqueActive(docs)
      requires Found(docs, org, id) ==> CanStart(docs, id, succ)
      modifies this`docs, this`files, this`faults, this`dead, this`notes, this`history
      ensures old(notes) <= notes && KeptOrder(old(history), old(Startable(docs, id, succ)))
      ensures r == Failure(NotFound) <==>
                !(id in old(docs) && old(docs)[id].org == org && !old(docs)[id].softDeleted)
      ensures r == Failure(BadFile) <==> old(Found(docs, org, id)) && !fileAccepted
      ensures old(Found(docs, org, id)) && fileAccepted ==>
                (r == Failure(NotOneIncrement) <==>
                   && version.Some? && Trim(version.value) != ""
                   && old(docs)[id].version.Some? && old(docs)[id].version.value != ""
                   && !Versions.OneIncrement(Trim(version.value), old(docs)[id].version.value))
      ensures old(Found(docs, org, id)) && succ in docs ==> Declares(docs[succ], old(docs)[id], nombre, version)
      ensures r.Success? ==>
                && id in docs && docs[id].status == Archived
                && succ in docs && docs[succ].file == Some(key) && docs[succ].pending.None?
      ensures forall k | k != id && k != succ ::
                (k in docs <==> k in old(docs)) && (k in docs ==> docs[k] == old(docs)[k])
      ensures r.Failure? && !r.error.Interrupted? ==> docs == old(docs) && files == old(files)
      ensures old(Found(docs, org, id)) ==>
                var m := Move(old(docs), id, succ, Draft(old(docs)[id], nombre, version), key);
                && Legal(m)
                && (exists st :: docs == At(m, st) && (EndOf(st).Finished? ==> FileKept(old(notes), m))
                                 && (r.Success? ==> r.value == succ && EndOf(st).Finished? && key in files))
      ensures old(Found(docs, org, id) && Startable(docs, id, succ)) ==>
                var m := Move(old(docs), id, succ, Draft(old(docs)[id], nombre, version), key);
                && WellFormed(docs)
                && (Undone(docs, m.start) || (Done(docs, m) && FileKept(old(notes), m)))
                && (r.Success? ==> Done(docs, m))
      ensures old(Reliable() && Found(docs, org, id)) && fileAccepted && r != Failure(NotOneIncrement) ==>
                && r == Success(succ) && docs[id].pending.None?
                && docs[succ].extraction == Processing
      // If only the event is not sent, the version stays and its extraction counts as failed.
      ensures old(Found(docs, org, id) && faults == UnsentScript()) && r.Success? ==>
                docs[id].pending.None? && docs[succ].extraction == Failed
      ensures old(Found(docs, org, id)) && fileAccepted && TrimOrNone(version).None? ==>
                r == Success(succ) || r == Failure(Interrupted)
      ensures old(Found(docs, org, id) && faults == LosingScript()) && (r.Success? || r.error.Interrupted?) ==>
                var m := Move(old(docs), id, succ, Draft(old(docs)[id], nombre, version), key);
                docs == At(m, Stored(Processing)) && key !in files
    {
      if !Found(docs, org, id) {
        return Failure(NotFound);
      }
      var prev := docs[id];
      var newVersion := TrimOrNone(version);
      var draft := Draft(prev, nombre, version);
      DraftIsDraft(prev, nombre, version);
      ghost var m := Move(docs, id, succ, draft, key);
      assert docs == At(m, Before);
      if !fileAccepted {
        return Failure(BadFile);
      }
      if newVersion.Some? && Filled(prev.version) {
        var bump := Versions.IsExactlyOneIncrement(newVersion.value, prev.version.value);
        if !bump {
          return Failure(NotOneIncrement);
        }
      }
      r := RunTransition(id, prev, draft, succ, key, m);
      StagesKeepOrder(old(history), m);
      ghost var st :| docs == At(m, st) && (EndOf(st).Finished? ==> FileKept(old(notes), m))
                      && (r.Success? ==> EndOf(st).Finished? && key in files);
      if Startable(m.start, id, succ) {
        StageIsSound(m, st);
      }
    }

    lemma StagesKeepOrder(before: seq<Docs>, m: Move)
      requires Legal(m) && UniqueActive(m.start) && KeptStages(before, m)
      ensures KeptOrder(before, Startable(m.start, m.prev, m.succ))
    {
      forall k | |before| <= k < |history|
        ensures UniqueActive(history[k]) && (Startable(m.start, m.prev, m.succ) ==> WellFormed(history[k]))
      {
        var st :| history[k] == At(m, st);
        StagesAreUnique(m, st);
        if Startable(m.start, m.prev, m.succ) {
          StageIsSound(m, st);
        }
      }
    }

    /** Steps 1 to 5, stage by stage. */
    method RunTransition(id: nat, prev: Doc, draft: Doc, succ: nat, key: nat, ghost m: Move)
      returns (r: Result<nat, Error>)
      requires !dead && Legal(m) && m == Move(docs, id, succ, draft, key) && prev == docs[id]
      modifies this`docs, this`files, this`faults, this`dead, this`notes, this`history
      ensures KeptStages(old(history), m) && old(notes) <= notes
      ensures exists st :: docs == At(m, st)
                           && (EndOf(st).Finished? ==> FileKept(old(notes), m))
                           && (r.Success? ==> EndOf(st).Finished? && key in files)
      ensures r == Success(succ) || r == Failure(Interrupted)
      ensures old(Reliable()) && UniqueActive(m.start) ==> r == Success(succ) && docs == At(m, Finished(Processing))
      ensures old(faults) == UnsentScript() && UniqueActive(m.start) ==>
                r == Success(succ) && docs == At(m, Finished(Failed))
      ensures old(faults) == LosingScript() && UniqueActive(m.start) ==>
                docs == At(m, Stored(Processing)) && key !in files
    {
      if UniqueActive(m.start) {
        SuccessorIsFree(m);
      }
      assert !FileLost(notes, notes, m);
      var archived := prev.(status := Archived, pending := Some(succ));
      var o := ReplaceByDraft(id, archived, draft, succ, m);
      if o != Saved {
        return Failure(Interrupted);
      }
      o := AttachFile(id, archived, draft, succ, key, m);
      if o != Saved {
        return Failure(Interrupted);
      }
      ghost var attached := notes;
      CompleteTransition(id, archived, draft.(file := Some(key), extraction := Processing), succ, m);
      NoneLostSince(old(notes), attached, notes, m);
      if dead {
        return Failure(Interrupted);
      }
      return Success(succ);
    }

    /** Steps 1 and 2: archive the old version with its marker, then insert the new one. */
    method ReplaceByDraft(id: nat, archived: Doc, draft: Doc, succ: nat, ghost m: Move) returns (o: Outcome)
      requires !dead && Legal(m) && docs == m.start && m.prev == id && m.succ == succ && m.draft == draft
      requires archived == docs[id].(status := Archived, pending := Some(succ))
      modifies this`docs, this`faults, this`dead, this`notes, this`history
      ensures KeptStages(old(history), m) && NothingRemoved(old(notes))
      ensures docs in {At(m, Before), At(m, Restored), At(m, Marker), At(m, Drafted)}
      ensures o == Saved ==> docs == At(m, Drafted) && !dead && notes == old(notes)
      ensures old(Reliable()) && !Collides(At(m, Marker), succ, draft) ==> Reliable() && o == Saved
      ensures old(faults) == LosingScript() && !Collides(At(m, Marker), succ, draft) ==>
                o == Saved && faults == [Fine, LostAck, Fine, Fails]
      ensures old(faults) == UnsentScript() && !Collides(At(m, Marker), succ, draft) ==>
                o == Saved && faults == [Fine, Fine, Fine, Fails]
    {
      assert docs == At(m, Before);
      o := SaveDoc(id, archived, false);
      assert docs == At(m, Before) || docs == At(m, Marker);
      if o != Saved {
        return;
      }
      o := SaveDoc(succ, draft, true);
      assert docs == At(m, Marker) || docs == At(m, Drafted);
      if o == Refused {
        RestoreOldActive(id, archived, m);
      }
    }

    // Startup recovery

    /**
     One document of the sweep, as it was found; whatever fails is left for the next startup. Every
     transition that can meet this step keeps leading where it did, whatever else is stuck.
     */
    method ReconcileOne(id: nat, doc: Doc)
      requires !dead && UniqueActive(docs) && doc.pending.Some? && (id in docs ==> docs[id] == doc)
      modifies this`docs, this`faults, this`dead, this`notes, this`history
      ensures KeptOrder(old(history), old(id in docs && WellFormed(docs))) && UniqueActive(docs)
      ensures NothingRemoved(old(notes))
      ensures KeepsPairs(old(docs), docs, id, doc) && KeepsTaken(old(docs), docs, id, doc)
      ensures forall m | m in docs :: m in old(docs) && (m != id ==> docs[m] == old(docs)[m])
      ensures forall k | k in old(docs) && k !in docs ::
                && doc.pending == Some(k) && old(docs)[k].org == doc.org
                && !old(docs)[k].softDeleted && old(docs)[k].file.None?
      ensures id in docs ==>
                || docs[id] == doc
                || docs[id] == doc.(pending := None,
                                    status := if FullyWritten(old(docs), doc) then doc.status else Active)
      ensures old(Reliable()) ==> Reliable() && !dead
      ensures old(Reliable()) ==>
                forall m, end | Towards(old(docs), m, end) && m.prev == id :: id in docs && docs[id].pending.None?
      ensures old(id in docs && WellFormed(docs)) ==>
                && WellFormed(docs) && Repair(docs) == Repair(old(docs))
                && (forall m | m in old(docs) && m != id && old(docs)[m].pending.Some? :: m in docs)
                && (old(Reliable()) ==> id in docs && docs[id].pending.None?)
    {
      var succ := doc.pending.value;
      var o := Call();
      if o != Saved {
        return;
      }
      if FullyWritten(docs, doc) {
        SettleOne(id, doc);
        return;
      }
      if Successor(docs, doc, succ) {
        RemovingKeepsPairs(docs, id, doc, succ);
        RemovingKeepsTaken(docs, id, doc, succ);
        if id in docs && WellFormed(docs) {
          RemovingKeeps(docs, id, succ);
        }
        o := DeleteDoc(succ);
      } else {
        o := Call();
      }
      if o == Saved {
        SettleOne(id, doc);
      }
    }

    /** The write that ends the step: the marker goes, and an unfinished transition is undone. */
    method SettleOne(id: nat, doc: Doc)
      requires !dead && UniqueActive(docs) && doc.pending.Some? && (id in docs ==> docs[id] == doc)
      requires FullyWritten(docs, doc) || !Successor(docs, doc, doc.pending.value)
      modifies this`docs, this`faults, this`dead, this`notes, this`history
      ensures KeptOrder(old(history), old(id in docs && WellFormed(docs))) && UniqueActive(docs)
      ensures NothingRemoved(old(notes))
      ensures KeepsPairs(old(docs), docs, id, doc) && KeepsTaken(old(docs), docs, id, doc)
      ensures docs.Keys == old(docs).Keys && forall m | m in docs && m != id :: docs[m] == old(docs)[m]
      ensures id in docs ==>
                || docs[id] == doc
                || docs[id] == doc.(pending := None,
                                    status := if FullyWritten(old(docs), doc) then doc.status else Active)
      ensures old(Reliable()) ==> Reliable() && !dead
      ensures old(Reliable()) ==>
                forall m, end | Towards(old(docs), m, end) && m.prev == id :: id in docs && docs[id].pending.None?
      ensures old(id in docs && WellFormed(docs)) ==>
                && WellFormed(docs) && Repair(docs) == Repair(old(docs))
                && (old(Reliable()) ==> id in docs && docs[id].pending.None?)
    {
      var d := if FullyWritten(docs, doc) then doc.(pending := None) else doc.(status := Active, pending := None);
      if id in docs {
        SettlingKeepsPairs(docs, id);
        SettlingKeepsTaken(docs, id);
        SettlingIsFreeFor(docs, id);
        if WellFormed(docs) {
          SettlingKeepsOrder(docs, id);
        }
      }
      var o := SaveDoc(id, d, false);
    }

    /** The next document of a sweep that found `found` and has the documents of `left` still to do. */
    method ReconcileNext(found: Docs, left: set<nat>, id: nat)
      requires !dead && UniqueActive(docs) && id in left && Pending(found, docs, left)
      modifies this`docs, this`faults, this`dead, this`notes, this`history
      ensures KeptOrder(old(history), old(left <= docs.Keys && WellFormed(docs))) && UniqueActive(docs)
      ensures NothingRemoved(old(notes)) && Pending(found, docs, left - {id})
      ensures old(Reliable()) ==> Reliable() && !dead
      ensures forall calm: bool | (calm ==> old(Reliable())) && PairsSwept(found, old(docs), left, calm) ::
                PairsSwept(found, docs, left - {id}, calm)
      ensures forall calm: bool | (calm ==> old(Reliable())) && RestSwept(found, old(docs), left, calm) ::
                RestSwept(found, docs, left - {id}, calm)
      ensures TakenSwept(found, old(docs)) ==> TakenSwept(found, docs)
      ensures RemovesOnlyDrafts(old(docs), docs)
    {
      FoundSpares(found, id);
      ReconcileOne(id, found[id]);
    }

    /** The sweep over every document that carries a marker when it starts. */
    method Reconcile()
      requires !dead && UniqueActive(docs)
      modifies this`docs, this`faults, this`dead, this`notes, this`history
      ensures KeptOrder(old(history), old(WellFormed(docs))) && UniqueActive(docs)
      ensures NothingRemoved(old(notes))
      ensures forall m, end | Towards(old(docs), m, end) :: Towards(docs, m, end)
      ensures TakenSwept(old(docs), docs) && RemovesOnlyDrafts(old(docs), docs)
      ensures old(Reliable()) ==> !dead && forall m, end | Towards(old(docs), m, end) :: PairAt(docs, m, end)
      ensures old(WellFormed(docs)) ==>
                && WellFormed(docs) && Repair(docs) == Repair(old(docs))
                && (old(Reliable()) ==> docs == Repair(old(docs)))
    {
      var o := Call();
      if o != Saved {
        return;
      }
      var found := docs;
      var stuck := set m | m in found && found[m].pending.Some?;
      ghost var calm := old(Reliable());
      assert PairsSwept(found, docs, stuck, calm);
      while stuck != {} && !dead
        invariant KeptOrder(old(history), WellFormed(found)) && UniqueActive(docs) && NothingRemoved(old(notes))
        invariant calm ==> Reliable() && !dead
        invariant Pending(found, docs, stuck) && PairsSwept(found, docs, stuck, calm) && TakenSwept(found, docs)
        invariant WellFormed(found) ==> RestSwept(found, docs, stuck, calm)
        invariant RemovesOnlyDrafts(found, docs)
        decreases stuck
      {
        var id :| id in stuck;
        ReconcileNext(found, stuck, id);
        stuck := stuck - {id};
      }
      if calm {
        SweptIsSettled(found, docs);
      }
    }

    /** A new process takes over the stored documents. */
    method Restart(script: seq<Fault>)
      modifies this`faults, this`dead
      ensures !dead && faults == script
    {
      dead, faults := false, script;
    }

    /**
     Any number of interrupted sweeps, then one that runs undisturbed: every transition that
     nothing stands in the way of is settled, even if others cannot be; a stuck document whose code
     another one has taken stays as it is, however often the service starts.
     */
    method Recover(scripts: seq<seq<Fault>>)
      requires UniqueActive(docs)
      modifies this`docs, this`faults, this`dead, this`notes, this`history
      ensures !dead && KeptOrder(old(history), old(WellFormed(docs))) && NothingRemoved(old(notes))
      ensures forall m, end | Towards(old(docs), m, end) :: Towards(docs, m, end) && PairAt(docs, m, end)
      ensures forall x, j | Taken(old(docs), x, j) :: Taken(docs, x, j) && docs[x] == old(docs)[x]
      ensures RemovesOnlyDrafts(old(docs), docs)
      ensures old(WellFormed(docs)) ==> docs == Repair(old(docs))
    {
      for i := 0 to |scripts|
        invariant UniqueActive(docs) && KeptOrder(old(history), old(WellFormed(docs))) && NothingRemoved(old(notes))
        invariant forall m, end | Towards(old(docs), m, end) :: Towards(docs, m, end)
        invariant TakenSwept(old(docs), docs) && RemovesOnlyDrafts(old(docs), docs)
        invariant old(WellFormed(docs)) ==> WellFormed(docs) && Repair(docs) == Repair(old(docs))
      {
        Restart(scripts[i]);
        Reconcile();
      }
      Restart([]);
      Reconcile();
    }

    /** Whatever the operation answers, the stage at which it left the documents. */
    method Transition(org: nat, id: nat, succ: nat, key: nat, fileAccepted: bool,
                      nombre: Option<string>, version: Option<string>) returns (ghost st: Stage)
      requires !dead && UniqueActive(docs) && Found(docs, org, id) && CanStart(docs, id, succ)
      modifies this`docs, this`files, this`faults, this`dead, this`notes, this`history
      ensures old(notes) <= notes && KeptOrder(old(history), old(Startable(docs, id, succ)))
      ensures var m := Move(old(docs), id, succ, Draft(old(docs)[id], nombre, version), key);
              docs == At(m, st) && (EndOf(st).Finished? ==> FileKept(old(notes), m))
    {
      ghost var m := Move(docs, id, succ, Draft(docs[id], nombre, version), key);
      var r := CreateNewVersion(org, id, succ, key, fileAccepted, nombre, version);
      st :| docs == At(m, st) && (EndOf(st).Finished? ==> FileKept(old(notes), m));
    }

    /**
     A transition that may fail or die anywhere, followed by recovery, ends with the old version
     ACTIVE and alone, or with it ARCHIVED and the new one ACTIVE with its file; no marker in
     either. Other documents matter only where they could take the typology's code.
     */
    method TransitionThenRecover(org: nat, id: nat, succ: nat, key: nat, fileAccepted: bool,
                                 nombre: Option<string>, version: Option<string>, scripts: seq<seq<Fault>>)
      requires !dead && UniqueActive(docs) && Found(docs, org, id)
      requires Unopposed(Move(docs, id, succ, Draft(docs[id], nombre, version), key))
      modifies this`docs, this`files, this`faults, this`dead, this`notes, this`history
      ensures KeptOrder(old(history), old(Startable(docs, id, succ)))
      ensures var m := Move(old(docs), id, succ, Draft(old(docs)[id], nombre, version), key);
              || RolledBack(old(docs), docs, id, succ)
              || (Replaced(old(docs), docs, id, succ, key) && FileKept(old(notes), m))
      ensures succ in docs ==> Declares(docs[succ], old(docs)[id], nombre, version)
      ensures old(Startable(docs, id, succ)) ==>
                var m := Move(old(docs), id, succ, Draft(old(docs)[id], nombre, version), key);
                docs == Repair(old(docs)) || exists x :: docs == Repair(At(m, Finished(x)))
    {
      ghost var m := Move(docs, id, succ, Draft(docs[id], nombre, version), key);
      ghost var st := Transition(org, id, succ, key, fileAccepted, nombre, version);
      StagesAreUnique(m, st);
      StagesLeadOn(m, st);
      if Startable(m.start, id, succ) {
        StageIsSound(m, st);
      }
      ghost var created := notes;
      Recover(scripts);
      NoneLostSince(old(notes), created, notes, m);
      EndsAreTheTwo(docs, m, st);
    }
  }

  /**
   A run that loses a file: recovery takes the key for the file and keeps a new version whose file
   the service itself removed.
   */
  method FileCanBeLost(prev: Doc, key: nat) returns (service: DocumentService)
    requires prev.status == Active && !prev.softDeleted && Complete(prev) && prev.pending.None?
    ensures Replaced(map[0 := prev], service.docs, 0, 1, key) && key !in service.files
  {
    service := new DocumentService(map[0 := prev], LosingScript());
    ghost var m := Move(service.docs, 0, 1, Draft(prev, None, None), key);
    var r := service.CreateNewVersion(prev.org, 0, 1, key, true, None, None);
    StagesAreUnique(m, Stored(Processing));
    StagesLeadOn(m, Stored(Processing));
    service.Recover([]);
    EndsAreTheTwo(service.docs, m, Stored(Processing));
  }

  /** The documents still to do are as the sweep found them, or gone. */
  ghost predicate Pending(found: Docs, docs: Docs, left: set<nat>) {
    forall m | m in left :: m in found && found[m].pending.Some? && (m in docs ==> docs[m] == found[m])
  }

  /** The sweep has kept every pair on its way, and those it is done with carry no marker if no call failed. */
  ghost predicate PairsSwept(found: Docs, docs: Docs, left: set<nat>, calm: bool) {
    forall m, end | Towards(found, m, end) ::
      Towards(docs, m, end) && (calm && m.prev !in left ==> docs[m.prev].pending.None?)
  }

  /** The sweep of a repairable collection has kept what it stands for. */
  ghost predicate RestSwept(found: Docs, docs: Docs, left: set<nat>, calm: bool) {
    && WellFormed(docs) && Repair(docs) == Repair(found) && left <= docs.Keys
    && (calm ==> forall m | m in docs && docs[m].pending.Some? :: m in left)
  }

  /**
   Recovery adds nothing and removes no document that has a file or was deleted by a user; a marker
   and a status are all that it changes.
   */
  ghost predicate RemovesOnlyDrafts(found: Docs, docs: Docs) {
    && (forall k | k in found && k !in docs :: !found[k].softDeleted && found[k].file.None?)
    && (forall k | k in docs ::
          k in found && docs[k] == found[k].(pending := docs[k].pending, status := docs[k].status))
    && (forall k | k in docs && docs[k] != found[k] :: found[k].pending.Some? && docs[k].pending.None?)
  }

  /** The sweep has changed no stuck document whose code is taken. */
  ghost predicate TakenSwept(found: Docs, docs: Docs) {
    forall x, j | Taken(found, x, j) ::
      Taken(docs, x, j) && docs[x] == found[x] && SameBody(docs[j], found[j])
  }

  lemma SweptIsSettled(found: Docs, docs: Docs)
    requires PairsSwept(found, docs, {}, true)
    ensures forall m, end | Towards(found, m, end) :: PairAt(docs, m, end)
    ensures RestSwept(found, docs, {}, true) ==> docs == Repair(found)
  {
    forall m, end | Towards(found, m, end) ensures PairAt(docs, m, end) {
      UnmarkedIsSettled(docs, m, end);
    }
    if RestSwept(found, docs, {}, true) {
      RepairedIsStable(docs);
    }
  }

  /** What the sweep found on other documents spares every transition it can settle. */
  lemma FoundSpares(found: Docs, id: nat)
    requires id in found && found[id].pending.Some?
    ensures forall m, end | Towards(found, m, end) :: id == m.prev || Spares(m, found[id])
  {
    forall m, end | Towards(found, m, end) ensures id == m.prev || Spares(m, found[id]) {
      assert id != m.succ;
      assert id != m.prev ==> Harmless(found, found[id], m);
    }
  }

  lemma SettlingIsFreeFor(docs: Docs, id: nat)
    requires UniqueActive(docs) && id in docs && docs[id].pending.Some?
    requires FullyWritten(docs, docs[id]) || !Successor(docs, docs[id], docs[id].pending.value)
    ensures forall m, end | Towards(docs, m, end) && m.prev == id :: !Collides(docs, id, Settled(docs, docs[id]))
  {
    forall m, end | Towards(docs, m, end) && m.prev == id ensures !Collides(docs, id, Settled(docs, docs[id])) {
      SettlingIsFree(docs, m, end);
    }
  }

  lemma SettlingKeepsOrder(docs: Docs, id: nat)
    requires WellFormed(docs) && id in docs && docs[id].pending.Some?
    requires FullyWritten(docs, docs[id]) || !Successor(docs, docs[id], docs[id].pending.value)
    ensures var docs' := docs[id := Settled(docs, docs[id])];
            !Collides(docs, id, docs'[id]) && WellFormed(docs') && Repair(docs') == Repair(docs)
  {
    if FullyWritten(docs, docs[id]) {
      ClearingKeeps(docs, id);
    } else {
      assert Restorable(docs, id);
      RestoringKeeps(docs, id);
    }
  }

  /** The two endings differ, and in both the pair is settled: no marker, one of the two ACTIVE. */
  lemma EndingsAreSettled(m: Move, x: Extraction)
    requires Legal(m) && Startable(m.start, m.prev, m.succ)
    ensures var undone := Repair(m.start);
            m.prev in undone && undone[m.prev] == m.start[m.prev] && m.succ !in undone
    ensures var done := Repair(At(m, Finished(x)));
            && m.prev in done && done[m.prev] == m.start[m.prev].(status := Archived)
            && m.succ in done && done[m.succ] == WithFile(m, x) && done[m.succ].status == Active
            && done[m.succ].file == Some(m.key) && done[m.succ].pending.None?
  {
    var finished := At(m, Finished(x));
    StageIsSound(m, Finished(x));
    assert !finished[m.prev].pending.Some? && !finished[m.succ].pending.Some?;
    forall k | k in finished && Unfinished(finished, finished[k])
      ensures !Successor(finished, finished[k], m.prev) && !Successor(finished, finished[k], m.succ)
    {
      assert Restorable(finished, k) && k in m.start && m.start[k] == finished[k];
    }
  }
}
