# Collaborative document editor backend, modelled in Dafny

This project models the core of a small collaborative-editor server: an
access-controlled document store and a realtime room relay.

- **Document record** (`server/models/Document.js`). A document has a title, a
  content, an owner, a list of collaborators, a version and a last-modified time.
  The title is required and trimmed. The content defaults to the empty string,
  the collaborators to the empty list, the version to 1 and the time to "now".
  - `DocumentModel.MakeDocument` is the constructor. It fails on a missing owner,
    a missing title, or a title that is empty once trimmed.
  - `DocumentModel.Assign` is `Object.assign` onto a document.
  - `Text.Trim` is ECMAScript `String.prototype.trim`, the setter Mongoose runs
    on the title.
- **Document routes** (`server/routes/documents.js`). The state is
  `State(docs: map<DocId, Document>, userDocs: map<UserId, seq<DocId>>)`.
  - Each of the six handlers is a pure function from the state, the caller and
    the arguments to an `Outcome(reply, state')`.
  - The reply is `Doc`, `DocList`, `NotFound` or `ValidationError`.
  - List, get and patch admit the owner or a collaborator (`CanAccess`).
  - Delete and add-collaborator admit the owner only (`IsOwner`).
  - Everyone else gets the same `NotFound` as for an absent id.
- **Room relay** (`server/index.js:34-49`). Rooms are a
  `map<RoomId, set<SocketId>>`.
  - `Join` adds a socket to a room, with no check.
  - `Recipients` and `Relay` give the sockets a `document-change` reaches and the
    `receive-changes` messages sent to them. These are the other members of the
    room named by `delta.documentId`; the sender is excluded by socket.io's
    `socket.to(room)`.

Some consequences of the code that the lemmas state are listed under
"Behaviour worth noting" at the end.

Environment inputs become parameters:
- the caller's id (`req.user._id`, resolved by the authentication middleware);
- the time `now` (`Date.now` / `new Date()`);
- the id of a newly created document (`newId`). `Create` requires that this id
  is not yet stored, which is what ObjectId generation provides.

Each route is one atomic step. In the server, create and delete write the
document and the user in two separate saves. Two concurrent patches of one
document can also lose an update. Neither effect is modelled.

Files: `options.dfy` (Option), `text.dfy` (trim), `document_model.dfy`,
`document_routes.dfy`, `route_properties.dfy` (lemmas over several route calls),
`room_relay.dfy`.

## Model

| member | source | states |
|---|---|---|
| Text.Trim | server/models/Document.js:7 | the trimmed title has no whitespace at either end and is an infix of the input with only whitespace cut off each side |
| Text.TrimUnique | server/models/Document.js:7 | any split of a string into whitespace, a stripped middle and whitespace has the trimmed string as its middle, so trim is the unique such middle |
| Text.TrimIdempotent | server/models/Document.js:7 | trimming an already trimmed title changes nothing |
| Text.TrimEmptyIff | server/models/Document.js:4-8 | a title trims to the empty string exactly when it consists only of whitespace |
| DocumentModel.MakeDocument | server/models/Document.js:3-29 | building a document succeeds exactly when an owner and a title that is non-empty after trimming are given; the result is well-formed, its title is the trimmed title, and content, collaborators, version and lastModified are the supplied values or '', [], 1 and now |
| DocumentModel.BlankTitleRejected | server/models/Document.js:4-8 | a missing or all-whitespace title is rejected |
| DocumentModel.TitledDocumentAccepted | server/models/Document.js:4-17 | with an owner, any title holding a non-whitespace character is accepted |
| DocumentModel.AssignOverwrites | server/routes/documents.js:73 | under Object.assign a field present in the body decides the result whatever the document held, and an absent field keeps the document's value |
| DocumentModel.AssignIdempotent | server/routes/documents.js:73 | assigning the same body twice equals assigning it once |
| DocumentModel.AssignNothing | server/routes/documents.js:73 | assigning the empty body leaves the document as it was |
| DocumentRoutes.RemoveAll | server/routes/documents.js:95-97 | filtering an id out of a user's list removes every occurrence and keeps every other id with its multiplicity |
| DocumentRoutes.Create | server/routes/documents.js:7-20 | create succeeds exactly when the body's title is non-empty after trimming; the stored document is then exactly the one the schema builds from the body with owner forced to the caller (trimmed title, supplied fields, defaults for the rest, well-formed), it is stored under the new id, the id is appended to the caller's list and no other user's list changes; otherwise it is a validation error and the state is unchanged |
| DocumentRoutes.List | server/routes/documents.js:23-35 | the list holds exactly the stored documents whose owner is the caller or whose collaborators include the caller, unchanged, and the state is untouched |
| DocumentRoutes.Get | server/routes/documents.js:38-56 | get returns the stored document exactly when the caller owns it or collaborates on it, and NotFound otherwise, without changing the state |
| DocumentRoutes.Update | server/routes/documents.js:59-81 | patch answers NotFound exactly when the caller has no access, and a validation error exactly when the caller has access and the merged title is empty after trimming; an accepted patch replaces only that document, body fields overwrite and the others stay, the version is the merged version plus one and lastModified is now; a rejected patch leaves the state as it was |
| DocumentRoutes.Delete | server/routes/documents.js:84-103 | delete succeeds exactly for the owner; it returns the document, removes it from the store, and leaves the caller's list as the order-keeping filter that drops every occurrence of the id, and other users' lists alone; anyone else gets NotFound with the state unchanged |
| DocumentRoutes.AddCollaborator | server/routes/documents.js:106-127 | add-collaborator succeeds exactly for the owner; the collaborator is then listed, appended only when absent, and no other field (the version included) changes; anyone else gets NotFound with the state unchanged |
| RouteProperties.CreatePreservesValid | server/routes/documents.js:9-13 | create keeps every stored document's title non-empty and trimmed |
| RouteProperties.UpdatePreservesValid | server/routes/documents.js:73-76 | patch keeps every stored document's title non-empty and trimmed |
| RouteProperties.DeletePreservesValid | server/routes/documents.js:86-89 | delete keeps every stored document's title non-empty and trimmed |
| RouteProperties.AddCollaboratorPreservesValid | server/routes/documents.js:117-121 | add-collaborator keeps every stored document's title non-empty and trimmed, so its save never fails validation |
| RouteProperties.ListAgreesWithGet | server/routes/documents.js:25-46 | an id is in the caller's list exactly when get by that caller returns it, and both give the same document |
| RouteProperties.InaccessibleLooksAbsent | server/routes/documents.js:40-50 | for a document the caller cannot access, get, patch, delete and add-collaborator reply exactly as if the document were absent |
| RouteProperties.CollaboratorCannotDelete | server/routes/documents.js:86-93 | a collaborator who is not the owner gets NotFound from delete and the document stays readable |
| RouteProperties.CollaboratorCannotShare | server/routes/documents.js:108-115 | a collaborator who is not the owner gets NotFound from add-collaborator and nothing changes |
| RouteProperties.PlainUpdateBumps | server/routes/documents.js:73-76 | a patch that supplies no version, owner, collaborators or blank title raises the version by exactly one and keeps the caller's access |
| RouteProperties.VersionCountsUpdates | server/routes/documents.js:73-76 | after N such accepted patches in a row the version has grown by exactly N |
| RouteProperties.BodyVersionWins | server/routes/documents.js:73-74 | a body's own version replaces the stored one unchecked and the saved version is that value plus one |
| RouteProperties.AddCollaboratorKeepsDistinct | server/routes/documents.js:117-121 | on a duplicate-free collaborator list, add-collaborator keeps it duplicate-free and the collaborator occurs exactly once |
| RouteProperties.DistinctOccursOnce | server/routes/documents.js:118 | in a duplicate-free list an element that is present occurs exactly once, which is what makes the includes test sufficient |
| RouteProperties.AddCollaboratorCount | server/routes/documents.js:117-121 | the collaborator's occurrences become one if there were none and otherwise stay as they were |
| RouteProperties.AddCollaboratorIdempotent | server/routes/documents.js:117-123 | repeating the same add-collaborator call gives the same reply and the same state |
| RouteProperties.CreateThenDelete | server/routes/documents.js:9-15 | creating a document with a non-blank title and then deleting it as the same caller gives back the created document and restores the store and every user's list |
| RouteProperties.DeleteUndoesCreate | server/routes/documents.js:86-97 | deleting, as its owner, a document just stored and appended to the owner's list under a new id restores the store and every user's list |
| RouteProperties.RemoveAppended | server/routes/documents.js:95-97 | filtering out an id just appended to a list that lacked it gives the list back |
| RouteProperties.RemoveAllAppend | server/routes/documents.js:95-97 | filtering an id out of a concatenation filters each part |
| RouteProperties.OwnerTransferLeavesDanglingId | server/routes/documents.js:7-97 | after a create, a patch by the creator that hands the document to another user lets that user delete it, while the creator's list still holds its id |
| RouteProperties.TransferThenDelete | server/routes/documents.js:73-97 | once the owner's patch sets owner to another user, that user's delete succeeds and removes the document, and the former owner's list is left exactly as it was |
| RouteProperties.CollaboratorTakesOver | server/routes/documents.js:59-97 | a collaborator who is not the owner may patch owner to themself, after which their delete succeeds, returns the document with them as owner and removes it, while the former owner's list is left as it was |
| RoomRelay.Join | server/index.js:37-40 | joining puts the socket in the named room, adds nobody else, and leaves every other room unchanged |
| RoomRelay.JoinIdempotent | server/index.js:37-40 | joining the same room twice leaves the same membership as joining once |
| RoomRelay.Recipients | server/index.js:42-44 | the recipients are exactly the members of room delta.documentId other than the sender |
| RoomRelay.Relay | server/index.js:43 | one receive-changes message goes to each recipient and to nobody else, carrying the delta unchanged |
| RoomRelay.ReceivesIff | server/index.js:42-44 | a socket receives the delta exactly when it is a member of the delta's room and not the sender |
| RoomRelay.SenderNeverEchoed | server/index.js:43 | the sender never receives its own delta, even as a member of the room |
| RoomRelay.NonMemberReceivesNothing | server/index.js:43 | a socket that is not in the delta's room, for instance one only in other rooms, receives nothing |
| RoomRelay.LonelyRoomIsSilent | server/index.js:42-44 | a room with no member but the sender, or no member at all, yields no messages and no error |
| RoomRelay.JoinedSocketReceives | server/index.js:37-44 | after a socket joins a room, it receives every delta that another socket sends to that room |
| RoomRelay.TwoRoomScenario | server/index.js:37-44 | with sockets 1 and 2 in doc1 and socket 3 in doc2, a change from 1 for doc1 reaches only 2, with the payload unchanged |
| RoomRelay.OutsiderReachesMembers | server/index.js:42-44 | a sender that joined no room reaches exactly the members of the delta's room |

## Left out

- MongoDB, Express, dotenv, CORS and `server.listen` (server/index.js:1-31, 51-63) are bootstrap and I/O.
- The authentication middleware (`server/middleware/auth.js`) is not part of this model. The caller is a given user id, and the user record is reduced to its `documents` list.
- HTTP status codes are left out. Each handler's failure is one of the `Reply` variants.
- ObjectId cast errors and store failures are left out. List, get and delete answer them with 500; create, patch and add-collaborator catch every error and answer 400 (server/routes/documents.js:17-18, 78-79, 124-125).
- Request bodies are typed. JSON `null`, values of the wrong JSON type (and Mongoose's casting of them) and a body-supplied `_id` are not modelled. Keys outside the schema are ignored, as Mongoose's strict mode does.
- A body to add-collaborator without `collaboratorId` is not modelled. The collaborator id is always given.
- `version` is a mathematical integer. JavaScript `Number` values (fractions, precision loss) are not modelled.
- The Mongoose `timestamps` fields (`createdAt`, `updatedAt`) and the `__v` version key are left out.
- The list route returns a map from id to document. The store's result order is not modelled.
- Concurrency is left out: the lost update between concurrent patches and the non-atomic document-then-user saves of create and delete. Each route is one atomic step.
- Add-collaborator's save runs validation, which the model leaves out. `RouteProperties.AddCollaboratorPreservesValid` and the other `…PreservesValid` lemmas show every stored title stays valid, so that save cannot fail on a store built by these routes.
- The `disconnect` handler only logs (server/index.js:46-48). socket.io's implicit removal from rooms on disconnect is not modelled.
- socket.io's private room per socket (named by the socket id) is not modelled. A delta whose `documentId` equals a socket id would reach that socket.
- A delta without a `documentId` is not modelled.
- Delivery, ordering and loss of socket messages are not modelled.
- DocumentRoutes.Delete: ids are compared by value. The server casts `:id` for the delete query (server/routes/documents.js:86-89) but filters the user's list by comparing each id's string form with the raw parameter (server/routes/documents.js:95-96), so a non-canonical spelling of the id (upper-case hex, say) could delete the document and still leave its id in the list. The model has one spelling per id.
- DocumentRoutes.AddCollaborator: ids are compared by value. The server's `includes` tests the raw body string against the stored ids' string forms while `push` casts it to an ObjectId (server/routes/documents.js:118-119), so a non-canonical spelling of a listed collaborator is not found and is appended again. The model has one spelling per id. A `collaboratorId` that is not a valid ObjectId fails the cast in `push` and the route answers 400; `UserId` is a `nat`, so this reply is not modelled.
- RoomRelay.Join: the payload is taken to be one string room name. socket.io's `join` also accepts an array of rooms, and the server passes any JSON value through unchecked.
- RoomRelay.Recipients: `delta.documentId` is taken to be one string room name. socket.io's `to` also accepts an array of rooms, and the delta is any JSON value, forwarded unchecked.

## Behaviour worth noting

- A patch runs `Object.assign(document, req.body)`, so it may overwrite any schema field, `owner`, `collaborators` and `version` included.
- `owner` can change after creation. A patch may hand the document to another user, who can then delete it while the creator's list still holds its id; see `RouteProperties.OwnerTransferLeavesDanglingId`.
- Delete is owner-only, but patch admits collaborators, so a collaborator can patch `owner` to themself and then delete the document; see `RouteProperties.CollaboratorTakesOver`. `RouteProperties.CollaboratorCannotDelete` is about a single delete call only.
- The saved version is the merged version plus one. A body that supplies `version` sets it unchecked; see `RouteProperties.BodyVersionWins`.
- `collaborators` is a list. A create or patch body may put duplicates in it; only add-collaborator avoids adding one.
- Create spreads the whole body into the new document, so `version`, `collaborators`, `content` and `lastModified` may be supplied. Defaults apply only to absent fields, and the owner is always the caller.
