/**
 * Properties that relate several calls of the document routes: the stored
 * document invariant, list against get, the hidden existence of inaccessible
 * documents, version counting over a run of patches, owner-only delete,
 * duplicate-free and idempotent add-collaborator, create/delete bookkeeping.
 */
module RouteProperties {
  import opened Options
  import opened Text
  import opened DocumentModel
  import opened DocumentRoutes

  /** Every stored document has a non-empty, trimmed title. */
  predicate Valid(st: State) {
    forall id | id in st.docs :: WellFormed(st.docs[id])
  }

  /** No user id occurs twice. */
  predicate Distinct(s: seq<UserId>) {
    forall i, j | 0 <= i < j < |s| :: s[i] != s[j]
  }

  /** How often `x` occurs in `s`. */
  function Occurrences(s: seq<UserId>, x: UserId): nat {
    multiset(s)[x]
  }

  // ---------------------------------------------------------------------------
  // The stored-document invariant

  lemma CreatePreservesValid(st: State, caller: UserId, body: Fields, newId: DocId, now: Time)
    requires newId !in st.docs
    requires Valid(st)
    ensures Valid(Create(st, caller, body, newId, now).state)
  {
  }

  lemma UpdatePreservesValid(st: State, caller: UserId, id: DocId, body: Fields, now: Time)
    requires Valid(st)
    ensures Valid(Update(st, caller, id, body, now).state)
  {
    var r := Update(st, caller, id, body, now);
    if r.reply.Doc? {
      assert WellFormed(r.reply.doc);
    }
  }

  lemma DeletePreservesValid(st: State, caller: UserId, id: DocId)
    requires Valid(st)
    ensures Valid(Delete(st, caller, id).state)
  {
  }

  lemma AddCollaboratorPreservesValid(st: State, caller: UserId, id: DocId, collaborator: UserId)
    requires Valid(st)
    ensures Valid(AddCollaborator(st, caller, id, collaborator).state)
  {
    var r := AddCollaborator(st, caller, id, collaborator);
    if r.reply.Doc? {
      assert r.reply.doc.title == st.docs[id].title;
    }
  }

  // ---------------------------------------------------------------------------
  // Access

  /** The list route shows exactly the documents the get route would return, with the same contents. */
  lemma ListAgreesWithGet(st: State, caller: UserId, id: DocId)
    ensures id in List(st, caller).reply.docs <==> Get(st, caller, id).reply.Doc?
    ensures id in List(st, caller).reply.docs ==>
              List(st, caller).reply.docs[id] == Get(st, caller, id).reply.doc
  {
  }

  /** The store without document `id`. */
  function Without(st: State, id: DocId): State {
    st.(docs := st.docs - {id})
  }

  /**
   * A caller who neither owns nor collaborates on `id` cannot tell it from a
   * missing document: get, patch, delete and add-collaborator answer exactly
   * as they would if `id` were not stored at all.
   */
  lemma InaccessibleLooksAbsent(st: State, caller: UserId, id: DocId, body: Fields, now: Time, collaborator: UserId)
    requires id in st.docs && !CanAccess(st.docs[id], caller)
    ensures Get(st, caller, id).reply == Get(Without(st, id), caller, id).reply == NotFound
    ensures Update(st, caller, id, body, now).reply == Update(Without(st, id), caller, id, body, now).reply
    ensures Delete(st, caller, id).reply == Delete(Without(st, id), caller, id).reply
    ensures AddCollaborator(st, caller, id, collaborator).reply
         == AddCollaborator(Without(st, id), caller, id, collaborator).reply
  {
  }

  /** A collaborator who is not the owner cannot delete: `NotFound`, and the document stays. */
  lemma CollaboratorCannotDelete(st: State, caller: UserId, id: DocId)
    requires id in st.docs && caller in st.docs[id].collaborators && st.docs[id].owner != caller
    ensures Delete(st, caller, id).reply == NotFound
    ensures id in Delete(st, caller, id).state.docs
    ensures Get(Delete(st, caller, id).state, caller, id).reply == Doc(st.docs[id])
  {
  }

  /** A collaborator who is not the owner cannot add collaborators either. */
  lemma CollaboratorCannotShare(st: State, caller: UserId, id: DocId, collaborator: UserId)
    requires id in st.docs && caller in st.docs[id].collaborators && st.docs[id].owner != caller
    ensures AddCollaborator(st, caller, id, collaborator) == Outcome(NotFound, st)
  {
  }

  // ---------------------------------------------------------------------------
  // Versions

  /** A patch that supplies neither `version`, `owner`, `collaborators` nor a blank title. */
  predicate Plain(b: Fields) {
    && b.version.None?
    && b.owner.None?
    && b.collaborators.None?
    && (b.title.None? || !AllWhite(b.title.value))
  }

  /** A run of patches of document `id` by one caller, in order. */
  function UpdateAll(st: State, caller: UserId, id: DocId, bodies: seq<Fields>, now: Time): State
    decreases |bodies|
  {
    if bodies == [] then st
    else UpdateAll(Update(st, caller, id, bodies[0], now).state, caller, id, bodies[1..], now)
  }

  /** One plain patch by someone with access bumps the version by exactly one and keeps the access. */
  lemma PlainUpdateBumps(st: State, caller: UserId, id: DocId, body: Fields, now: Time)
    requires id in st.docs && CanAccess(st.docs[id], caller) && st.docs[id].title != []
    requires Plain(body)
    ensures var st' := Update(st, caller, id, body, now).state;
      && id in st'.docs
      && st'.docs[id].version == st.docs[id].version + 1
      && CanAccess(st'.docs[id], caller)
      && st'.docs[id].title != []
  {
    if body.title.Some? {
      TrimEmptyIff(body.title.value);
    }
  }

  /** After N accepted plain patches the version has grown by exactly N. */
  lemma {:induction false} VersionCountsUpdates(st: State, caller: UserId, id: DocId, bodies: seq<Fields>, now: Time)
    requires id in st.docs && CanAccess(st.docs[id], caller) && st.docs[id].title != []
    requires forall i | 0 <= i < |bodies| :: Plain(bodies[i])
    ensures id in UpdateAll(st, caller, id, bodies, now).docs
    ensures UpdateAll(st, caller, id, bodies, now).docs[id].version == st.docs[id].version + |bodies|
    decreases |bodies|
  {
    if bodies != [] {
      var st' := Update(st, caller, id, bodies[0], now).state;
      PlainUpdateBumps(st, caller, id, bodies[0], now);
      assert forall i | 0 <= i < |bodies[1..]| :: Plain(bodies[1..][i]) by {
        forall i | 0 <= i < |bodies[1..]| ensures Plain(bodies[1..][i]) {
          assert bodies[1..][i] == bodies[i + 1];
        }
      }
      VersionCountsUpdates(st', caller, id, bodies[1..], now);
    }
  }

  /** A body's own `version` is not checked: it replaces the stored one and is then bumped. */
  lemma BodyVersionWins(st: State, caller: UserId, id: DocId, body: Fields, now: Time)
    requires Update(st, caller, id, body, now).reply.Doc?
    requires body.version.Some?
    ensures Update(st, caller, id, body, now).reply.doc.version == body.version.value + 1
  {
  }

  // ---------------------------------------------------------------------------
  // Collaborators

  /** Adding a collaborator keeps a duplicate-free list duplicate-free, and the collaborator occurs once. */
  lemma AddCollaboratorKeepsDistinct(st: State, caller: UserId, id: DocId, collaborator: UserId)
    requires AddCollaborator(st, caller, id, collaborator).reply.Doc?
    requires Distinct(st.docs[id].collaborators)
    ensures Distinct(AddCollaborator(st, caller, id, collaborator).reply.doc.collaborators)
    ensures Occurrences(AddCollaborator(st, caller, id, collaborator).reply.doc.collaborators, collaborator) == 1
  {
    var before := st.docs[id].collaborators;
    var after := AddCollaborator(st, caller, id, collaborator).reply.doc.collaborators;
    if collaborator !in before {
      assert after == before + [collaborator];
      assert multiset(after) == multiset(before) + multiset{collaborator};
    } else {
      var k :| 0 <= k < |before| && before[k] == collaborator;
      DistinctOccursOnce(before, k);
    }
  }

  /** In a duplicate-free list, an element that occurs occurs exactly once. */
  lemma {:induction false} DistinctOccursOnce(s: seq<UserId>, k: nat)
    requires k < |s| && Distinct(s)
    ensures Occurrences(s, s[k]) == 1
    decreases |s|
  {
    assert s == [s[0]] + s[1..];
    assert Distinct(s[1..]);
    if k == 0 {
      assert s[0] !in s[1..];
      assert multiset(s) == multiset{s[0]} + multiset(s[1..]);
    } else {
      DistinctOccursOnce(s[1..], k - 1);
      assert s[1..][k - 1] == s[k];
      assert multiset(s) == multiset{s[0]} + multiset(s[1..]);
    }
  }

  /** The occurrences of the collaborator never grow past one more than before, and only from zero. */
  lemma AddCollaboratorCount(st: State, caller: UserId, id: DocId, collaborator: UserId)
    requires AddCollaborator(st, caller, id, collaborator).reply.Doc?
    ensures var n := Occurrences(st.docs[id].collaborators, collaborator);
      Occurrences(AddCollaborator(st, caller, id, collaborator).reply.doc.collaborators, collaborator)
        == (if n == 0 then 1 else n)
  {
    var before := st.docs[id].collaborators;
    if collaborator !in before {
      assert multiset(before + [collaborator]) == multiset(before) + multiset{collaborator};
    }
  }

  /** Adding the same collaborator a second time changes nothing and answers the same document. */
  lemma AddCollaboratorIdempotent(st: State, caller: UserId, id: DocId, collaborator: UserId)
    ensures var r1 := AddCollaborator(st, caller, id, collaborator);
      AddCollaborator(r1.state, caller, id, collaborator) == r1
  {
  }

  // ---------------------------------------------------------------------------
  // The caller's document list

  /**
   * Creating a document and deleting it again by the same caller restores the
   * store and every user's list, provided the title is not blank and the new
   * id was not already listed.
   */
  lemma CreateThenDelete(st: State, caller: UserId, body: Fields, newId: DocId, now: Time)
    requires newId !in st.docs && newId !in DocsOf(st, caller)
    requires body.title.Some? && !AllWhite(body.title.value)
    ensures var st1 := Create(st, caller, body, newId, now).state;
      && Delete(st1, caller, newId).reply == Create(st, caller, body, newId, now).reply
      && Delete(st1, caller, newId).state.docs == st.docs
      && forall u :: DocsOf(Delete(st1, caller, newId).state, u) == DocsOf(st, u)
  {
    TrimEmptyIff(body.title.value);
    var r1 := Create(st, caller, body, newId, now);
    DeleteUndoesCreate(st, r1.state, caller, r1.reply.doc, newId);
  }

  /** Deleting, as its owner, a document just stored and listed under a new id undoes both writes. */
  lemma DeleteUndoesCreate(st: State, st1: State, caller: UserId, d: Document, newId: DocId)
    requires newId !in st.docs && newId !in DocsOf(st, caller) && d.owner == caller
    requires st1.docs == st.docs[newId := d]
    requires DocsOf(st1, caller) == DocsOf(st, caller) + [newId]
    requires forall u | u != caller :: DocsOf(st1, u) == DocsOf(st, u)
    ensures Delete(st1, caller, newId).reply == Doc(d)
    ensures Delete(st1, caller, newId).state.docs == st.docs
    ensures forall u :: DocsOf(Delete(st1, caller, newId).state, u) == DocsOf(st, u)
  {
    var st2 := Delete(st1, caller, newId).state;
    assert st2.docs == st1.docs - {newId} == st.docs;
    forall u ensures DocsOf(st2, u) == DocsOf(st, u) {
      if u == caller {
        RemoveAppended(DocsOf(st, caller), newId);
      } else {
        assert DocsOf(st2, u) == DocsOf(st1, u);
      }
    }
  }

  /** Removing an id that was appended to a list it was absent from gives the list back. */
  lemma RemoveAppended(s: seq<DocId>, x: DocId)
    requires x !in s
    ensures RemoveAll(s + [x], x) == s
  {
    RemoveAllAppend(s, [x], x);
  }

  /** Removal distributes over concatenation. */
  lemma {:induction false} RemoveAllAppend(s: seq<DocId>, t: seq<DocId>, x: DocId)
    ensures RemoveAll(s + t, x) == RemoveAll(s, x) + RemoveAll(t, x)
    decreases |s|
  {
    if s == [] {
      assert s + t == t;
    } else {
      assert (s + t)[0] == s[0];
      assert (s + t)[1..] == s[1..] + t;
      RemoveAllAppend(s[1..], t, x);
    }
  }

  /**
   * Nothing keeps `owner` fixed: after a create, a patch by the creator may
   * hand the document to another user, who may then delete it, while the
   * creator's list still names the deleted id.
   */
  lemma OwnerTransferLeavesDanglingId(st: State, creator: UserId, other: UserId, body: Fields,
                                      newId: DocId, now: Time, later: Time)
    requires newId !in st.docs && creator != other
    requires body.title.Some? && !AllWhite(body.title.value)
    ensures var st1 := Create(st, creator, body, newId, now).state;
      var st2 := Update(st1, creator, newId, NoFields.(owner := Some(other)), later).state;
      var r3 := Delete(st2, other, newId);
      && r3.reply.Doc?
      && newId !in r3.state.docs
      && newId in DocsOf(r3.state, creator)
  {
    TrimEmptyIff(body.title.value);
    var r1 := Create(st, creator, body, newId, now);
    var st1 := r1.state;
    assert newId in st1.docs && st1.docs[newId].owner == creator && st1.docs[newId].title != [];
    assert newId in DocsOf(st1, creator);
    TransferThenDelete(st1, creator, other, newId, later);
  }

  /** A stored document handed by its owner to another user can be deleted by that user; the old owner's list keeps its id. */
  lemma TransferThenDelete(st: State, owner: UserId, other: UserId, id: DocId, now: Time)
    requires id in st.docs && st.docs[id].owner == owner && st.docs[id].title != []
    requires owner != other
    ensures var st2 := Update(st, owner, id, NoFields.(owner := Some(other)), now).state;
      var r3 := Delete(st2, other, id);
      && r3.reply.Doc?
      && id !in r3.state.docs
      && DocsOf(r3.state, owner) == DocsOf(st, owner)
  {
    var r2 := Update(st, owner, id, NoFields.(owner := Some(other)), now);
    assert r2.reply.Doc?;
    var st2 := r2.state;
    assert st2.docs[id].owner == other && st2.userDocs == st.userDocs;
  }

  /**
   * Delete is owner-only, but patch is open to collaborators and may rewrite
   * `owner`: a collaborator who patches `owner` to themself can then delete
   * the document, and the former owner's list keeps its id.
   */
  lemma CollaboratorTakesOver(st: State, caller: UserId, id: DocId, now: Time)
    requires id in st.docs && caller in st.docs[id].collaborators && st.docs[id].owner != caller
    requires st.docs[id].title != []
    ensures var st2 := Update(st, caller, id, NoFields.(owner := Some(caller)), now).state;
      var r3 := Delete(st2, caller, id);
      && r3.reply == Doc(st2.docs[id])
      && r3.reply.doc.owner == caller
      && id !in r3.state.docs
      && DocsOf(r3.state, st.docs[id].owner) == DocsOf(st, st.docs[id].owner)
  {
    var r2 := Update(st, caller, id, NoFields.(owner := Some(caller)), now);
    assert r2.reply.Doc?;
    var st2 := r2.state;
    assert st2.docs[id].owner == caller && st2.userDocs == st.userDocs;
  }
}
