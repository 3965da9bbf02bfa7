/**
 * The six handlers of server/routes/documents.js as pure transitions of an
 * abstract store. Each handler is one atomic step here; in the server the
 * document save and the user save of create and delete are two separate
 * writes, and concurrent patches of one document can lose an update.
 */
module DocumentRoutes {
  import opened Options
  import opened Text
  import opened DocumentModel

  /** Documents are keyed by an opaque identifier (a Mongo ObjectId). */
  type DocId = nat

  /** The document collection and each user's embedded `documents` list. */
  datatype State = State(docs: map<DocId, Document>, userDocs: map<UserId, seq<DocId>>)

  /** What a handler answers; `NotFound` does not say whether the document exists. */
  datatype Reply =
    | Doc(doc: Document)
    | DocList(docs: map<DocId, Document>)
    | NotFound
    | ValidationError

  datatype Outcome = Outcome(reply: Reply, state: State)

  /** The `$or: [{owner}, {collaborators}]` filter of list, get and patch. */
  predicate CanAccess(d: Document, u: UserId) {
    d.owner == u || u in d.collaborators
  }

  /** The `{owner}` filter of delete and add-collaborator. */
  predicate IsOwner(d: Document, u: UserId) {
    d.owner == u
  }

  /** The user's `documents` list; a user never written to has an empty one. */
  function DocsOf(st: State, u: UserId): seq<DocId> {
    if u in st.userDocs then st.userDocs[u] else []
  }

  /**
   * The filter of delete that keeps the ids whose string form differs from the
   * requested id: every occurrence of `x` goes, the rest keep their order.
   */
  function RemoveAll(s: seq<DocId>, x: DocId): (r: seq<DocId>)
    ensures x !in r
    ensures multiset(r) == multiset(s)[x := 0]
    ensures x !in s ==> r == s
    decreases |s|
  {
    if s == [] then []
    else
      var rest := RemoveAll(s[1..], x);
      assert s == [s[0]] + s[1..];
      if s[0] == x then rest else [s[0]] + rest
  }

  /**
   * POST /documents: build the document from the body with `owner` forced to
   * the caller, store it under the new id and append that id to the caller's
   * list; a body that fails validation changes nothing.
   */
  function Create(st: State, caller: UserId, body: Fields, newId: DocId, now: Time): (r: Outcome)
    requires newId !in st.docs
    ensures r.reply.Doc? || r.reply == ValidationError
    ensures r.reply.Doc? <==> body.title.Some? && Trim(body.title.value) != []
    ensures r.reply == ValidationError ==> r.state == st
    ensures r.reply.Doc? ==>
      && MakeDocument(body.(owner := Some(caller)), now) == Some(r.reply.doc)
      && WellFormed(r.reply.doc)
      && r.reply.doc.owner == caller
      && r.state.docs == st.docs[newId := r.reply.doc]
      && DocsOf(r.state, caller) == DocsOf(st, caller) + [newId]
      && (forall u | u != caller :: DocsOf(r.state, u) == DocsOf(st, u))
  {
    var made := MakeDocument(body.(owner := Some(caller)), now);
    if made.None? then Outcome(ValidationError, st)
    else
      var d := made.value;
      Outcome(Doc(d), State(st.docs[newId := d], st.userDocs[caller := DocsOf(st, caller) + [newId]]))
  }

  /** GET /documents: every document the caller owns or collaborates on. */
  function List(st: State, caller: UserId): (r: Outcome)
    ensures r.state == st && r.reply.DocList?
    ensures forall id :: id in r.reply.docs <==> id in st.docs && CanAccess(st.docs[id], caller)
    ensures forall id | id in r.reply.docs :: r.reply.docs[id] == st.docs[id]
  {
    Outcome(DocList(map id | id in st.docs && CanAccess(st.docs[id], caller) :: st.docs[id]), st)
  }

  /** GET /documents/:id: the document if the caller may see it, `NotFound` otherwise. */
  function Get(st: State, caller: UserId, id: DocId): (r: Outcome)
    ensures r.state == st
    ensures r.reply.Doc? || r.reply == NotFound
    ensures r.reply.Doc? <==> id in st.docs && CanAccess(st.docs[id], caller)
    ensures r.reply.Doc? ==> r.reply.doc == st.docs[id]
  {
    if id in st.docs && CanAccess(st.docs[id], caller) then Outcome(Doc(st.docs[id]), st)
    else Outcome(NotFound, st)
  }

  /** The document a patch saves: the body merged in, then `version += 1` and `lastModified = now`. */
  function Patched(d: Document, body: Fields, now: Time): Document {
    var merged := Assign(d, body);
    merged.(version := merged.version + 1, lastModified := now)
  }

  /**
   * PATCH /documents/:id: for the owner or a collaborator, merge the body,
   * bump the merged version and stamp the time; a save that fails
   * validation (an all-whitespace title) leaves the store as it was.
   */
  function Update(st: State, caller: UserId, id: DocId, body: Fields, now: Time): (r: Outcome)
    ensures r.reply.Doc? || r.reply == NotFound || r.reply == ValidationError
    ensures r.reply == NotFound <==> !(id in st.docs && CanAccess(st.docs[id], caller))
    ensures r.reply == ValidationError <==>
      && id in st.docs && CanAccess(st.docs[id], caller)
      && (if body.title.Some? then Trim(body.title.value) else st.docs[id].title) == []
    ensures !r.reply.Doc? ==> r.state == st
    ensures r.reply.Doc? ==>
      var d0 := st.docs[id];
      var d1 := r.reply.doc;
      && r.state == st.(docs := st.docs[id := d1])
      && d1.version == (if body.version.Some? then body.version.value else d0.version) + 1
      && d1.lastModified == now
      && d1.title == (if body.title.Some? then Trim(body.title.value) else d0.title)
      && d1.content == (if body.content.Some? then body.content.value else d0.content)
      && d1.owner == (if body.owner.Some? then body.owner.value else d0.owner)
      && d1.collaborators == (if body.collaborators.Some? then body.collaborators.value else d0.collaborators)
  {
    if id !in st.docs || !CanAccess(st.docs[id], caller) then Outcome(NotFound, st)
    else
      var d := Patched(st.docs[id], body, now);
      if PassesValidation(d) then Outcome(Doc(d), st.(docs := st.docs[id := d]))
      else Outcome(ValidationError, st)
  }

  /**
   * DELETE /documents/:id: for the owner only, remove the document and every
   * occurrence of its id from the caller's list; anyone else gets `NotFound`.
   */
  function Delete(st: State, caller: UserId, id: DocId): (r: Outcome)
    ensures r.reply.Doc? || r.reply == NotFound
    ensures r.reply.Doc? <==> id in st.docs && IsOwner(st.docs[id], caller)
    ensures r.reply == NotFound ==> r.state == st
    ensures r.reply.Doc? ==>
      && r.reply.doc == st.docs[id]
      && r.state.docs == st.docs - {id}
      && DocsOf(r.state, caller) == RemoveAll(DocsOf(st, caller), id)
      && (forall u | u != caller :: DocsOf(r.state, u) == DocsOf(st, u))
  {
    if id in st.docs && IsOwner(st.docs[id], caller) then
      Outcome(Doc(st.docs[id]),
              State(st.docs - {id}, st.userDocs[caller := RemoveAll(DocsOf(st, caller), id)]))
    else Outcome(NotFound, st)
  }

  /**
   * POST /documents/:id/collaborators: for the owner only, append the
   * collaborator unless already listed; the version is not bumped.
   */
  function AddCollaborator(st: State, caller: UserId, id: DocId, collaborator: UserId): (r: Outcome)
    ensures r.reply.Doc? || r.reply == NotFound
    ensures r.reply.Doc? <==> id in st.docs && IsOwner(st.docs[id], caller)
    ensures r.reply == NotFound ==> r.state == st
    ensures r.reply.Doc? ==>
      var d0 := st.docs[id];
      var d1 := r.reply.doc;
      && r.state == st.(docs := st.docs[id := d1])
      && collaborator in d1.collaborators
      && d1 == d0.(collaborators := d1.collaborators)
      && d1.collaborators == (if collaborator in d0.collaborators then d0.collaborators
                              else d0.collaborators + [collaborator])
  {
    if id !in st.docs || !IsOwner(st.docs[id], caller) then Outcome(NotFound, st)
    else
      var d := st.docs[id];
      if collaborator in d.collaborators then Outcome(Doc(d), st)
      else
        var d' := d.(collaborators := d.collaborators + [collaborator]);
        Outcome(Doc(d'), st.(docs := st.docs[id := d']))
  }
}
