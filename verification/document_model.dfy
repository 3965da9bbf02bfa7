/**
 * The document record of server/models/Document.js: its fields, the `trim`
 * setter on `title`, the `required` validators on `title` and `owner`, and the
 * defaults of `content`, `collaborators`, `version` and `lastModified`.
 */
module DocumentModel {
  import opened Options
  import opened Text

  /** Users are referred to by an opaque identifier (a Mongo ObjectId). */
  type UserId = nat

  /** Wall-clock time; `Date.now` becomes a parameter `now`. */
  type Time = nat

  datatype Document = Document(
    title: string,
    content: string,
    owner: UserId,
    collaborators: seq<UserId>,
    version: int,
    lastModified: Time)

  /** A JSON request body, restricted to the schema's fields: each one absent or present. */
  datatype Fields = Fields(
    title: Option<string>,
    content: Option<string>,
    owner: Option<UserId>,
    collaborators: Option<seq<UserId>>,
    version: Option<int>,
    lastModified: Option<Time>)

  /** The empty body `{}`. */
  const NoFields := Fields(None, None, None, None, None, None)

  /** What every stored document satisfies: a non-empty title with no surrounding whitespace. */
  predicate WellFormed(d: Document) {
    d.title != [] && Stripped(d.title)
  }

  /** The `required` validator on `title` (a Mongoose string path rejects the empty string). */
  predicate PassesValidation(d: Document) {
    d.title != []
  }

  /**
   * `Object.assign(d, f)` on a Mongoose document: every present field
   * overwrites, the title passing through the `trim` setter on the way in.
   */
  function Assign(d: Document, f: Fields): Document {
    Document(
      if f.title.Some? then Trim(f.title.value) else d.title,
      f.content.GetOr(d.content),
      f.owner.GetOr(d.owner),
      f.collaborators.GetOr(d.collaborators),
      f.version.GetOr(d.version),
      f.lastModified.GetOr(d.lastModified))
  }

  /** The schema defaults, before any supplied field is applied. */
  function Defaults(owner: UserId, now: Time): Document {
    Document("", "", owner, [], 1, now)
  }

  /**
   * `new Document(f)` followed by validation on save: fails when `owner` or
   * `title` is missing or the trimmed title is empty; otherwise every absent
   * field takes its schema default.
   */
  function MakeDocument(f: Fields, now: Time): (r: Option<Document>)
    ensures r.Some? <==> f.owner.Some? && f.title.Some? && Trim(f.title.value) != []
    ensures r.Some? ==> WellFormed(r.value)
    ensures r.Some? ==> r.value.title == Trim(f.title.value) && r.value.owner == f.owner.value
    ensures r.Some? ==> r.value.content == (if f.content.Some? then f.content.value else "")
    ensures r.Some? ==> r.value.collaborators == (if f.collaborators.Some? then f.collaborators.value else [])
    ensures r.Some? ==> r.value.version == (if f.version.Some? then f.version.value else 1)
    ensures r.Some? ==> r.value.lastModified == (if f.lastModified.Some? then f.lastModified.value else now)
  {
    if f.owner.None? || f.title.None? then None
    else
      var d := Assign(Defaults(f.owner.value, now), f);
      if PassesValidation(d) then Some(d) else None
  }

  /** Assigning the same body twice is assigning it once (the trim setter is idempotent). */
  lemma AssignIdempotent(d: Document, f: Fields)
    ensures Assign(Assign(d, f), f) == Assign(d, f)
  {
    var once := Assign(d, f);
    if f.title.Some? {
      TrimIdempotent(f.title.value);
    }
    assert Assign(once, f).title == once.title;
  }

  /**
   * A present field of the body decides the result regardless of the
   * document it lands on; an absent one leaves the document's value.
   */
  lemma AssignOverwrites(d1: Document, d2: Document, f: Fields)
    ensures f.title.Some? ==> Assign(d1, f).title == Assign(d2, f).title
    ensures f.title.None? ==> Assign(d1, f).title == d1.title
    ensures f.content.Some? ==> Assign(d1, f).content == Assign(d2, f).content
    ensures f.content.None? ==> Assign(d1, f).content == d1.content
    ensures f.owner.Some? ==> Assign(d1, f).owner == Assign(d2, f).owner
    ensures f.owner.None? ==> Assign(d1, f).owner == d1.owner
    ensures f.collaborators.Some? ==> Assign(d1, f).collaborators == Assign(d2, f).collaborators
    ensures f.collaborators.None? ==> Assign(d1, f).collaborators == d1.collaborators
    ensures f.version.Some? ==> Assign(d1, f).version == Assign(d2, f).version
    ensures f.version.None? ==> Assign(d1, f).version == d1.version
    ensures f.lastModified.Some? ==> Assign(d1, f).lastModified == Assign(d2, f).lastModified
    ensures f.lastModified.None? ==> Assign(d1, f).lastModified == d1.lastModified
  {
  }

  /** The empty body changes nothing. */
  lemma AssignNothing(d: Document)
    ensures Assign(d, NoFields) == d
  {
  }

  /** A document built from a title that is missing or only whitespace is rejected. */
  lemma BlankTitleRejected(f: Fields, now: Time)
    requires f.title.None? || AllWhite(f.title.value)
    ensures MakeDocument(f, now).None?
  {
    if f.title.Some? {
      TrimEmptyIff(f.title.value);
    }
  }

  /** With an owner, a title that has a non-whitespace character is enough to build a document. */
  lemma TitledDocumentAccepted(f: Fields, now: Time)
    requires f.owner.Some? && f.title.Some? && !AllWhite(f.title.value)
    ensures MakeDocument(f, now).Some?
  {
    TrimEmptyIff(f.title.value);
  }
}
