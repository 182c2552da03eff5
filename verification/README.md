# Hermes core: a verified model

Hermes core keeps documents on servers that cannot read them. A document is sealed under a read key;
a tag over its data and metadata, made with a write key, guards the next write in the data store; the
key store holds one wrapped copy of each key for every user. This project models three parts of the
repository in Dafny and proves what they promise.

**The document access protocol.** Cryptography is a term algebra (`Crypto.dfy`): a ciphertext, a tag or
a wrapped key remembers its ingredients, and opening it compares them. `Protocol.dfy` gives every
user-level call as one transition of the stores. `Consistency.dfy`, `DocumentTable.dfy`, `Runs.dfy` and
`Access.dfy` prove, for any run of any calls by any users and whatever each call's status, that every
stored token opens the stored document, and that the encrypted stores cannot be told from a plain table
of documents and rights. `Secrecy.dfy` says who can open a document: seeing both stores is not enough, a
present reader's private key is. `LostUpdates.dfy` treats the compare-and-swap with loads and writes interleaved
freely; `Provenance.dfy` treats the key-store server against arbitrary requests. `Tokens.dfy`,
`RightsList.dfy`, `StoreServers.dfy`, `BlockObject.dfy`, `Saving.dfy` and `MidHermes.dfy` are the
imperative side: the doubly linked rights list, the two stores, the block object whose fields are
overwritten step by step, and the user-level calls, each proved to make exactly the protocol's
transition.

**The remote calls.** `ParamPack.dfy` and `PackTransfer.dfy` hold the parameter-pack codec: the two-pass
parser, the serializer into a buffer and onto a channel, and the reader. `HashTable.dfy` is the table of
registered functions, with its chains spliced in place. `Rpc.dfy` is the client, the server, and a
session of calls; `KeyStoreRpc.dfy` puts the key store behind it. `SecureTransport.dfy` is the framing
and reassembly below; `SecureRpc.dfy` takes the sends of a call over it, and `SecureSession.dfy` runs whole
sessions of calls between its two ends. `Channel.dfy` is the plain channel: a
send or a read of nothing is refused, as in the transports of the services.

**Two small codecs.** `Base64.dfy` holds the streaming encoder and decoder against the definition in
section 4 of RFC 4648, `DirectoryNames.dfy` the use the key store makes of its texts, and `FileTree.dfy` the
files the key store keeps under them, which stand for a map; `MemCmp.dfy` is the comparison in constant
time.

A method that overwrites state is proved against a function on values, which its `ensures` names; the
lemmas then say what that function achieves.

## Where the code does less than it seems to

These are properties that fail, each with the exact condition under which it holds.

- Creating a document under an identifier on which other users still hold tokens breaks those tokens
  (`Consistency.StepKeepsConsistent`, `Runs.ConsistentThroughoutExactlyWhen`, `Runs.ReuseBreaksReaders`,
  `Runs.ReuseExample`). Deleting a document
  leaves just such tokens behind (`Runs.DeleteLeavesOthers`).
- An update can write the data store and still report a failure: it reports success exactly when the
  granters of the caller's rights still hold them (`Runs.UpdateReportsExactlyWhen`, `Runs.UpdateExample`).
- The tag covers the data followed by the metadata with nothing between, so the compare-and-swap compares
  concatenations (`LostUpdates.SameContentExactlyWhen`, `LostUpdates.BoundaryExample`). The data store also
  accepts any tag for a document that is gone, although the comment at `gohermes/datastore.go:30` asks for
  an update only against the current tag (`LostUpdates.RemovalExample`).
- A remote call is the local call exactly when its packs stay below two to the 32 bytes, no parameter is an
  empty buffer (of the out parameters the last one may be), and stub and proxy agree on the out pack
  (`Rpc.CallIsDirectExactlyWhen`, `Rpc.SessionIsDirectExactlyWhen`). A transport refuses the send of an
  empty buffer, and what got out by then stays in the channel (`Rpc.RefusedRequestStays`,
  `Rpc.EmptyBufferExample`).
- A call to a function that is not registered is answered before its parameters are read, so they stay in
  the channel (`Rpc.UnregisteredLeavesParameters`).
- A hash-table key that is a proper prefix of a stored key is answered with the stored key's value
  (`HashTable.LookupIsMapLookup`, `HashTable.ShorterKeyHits`), and a key that a stored key is a proper
  prefix of makes the comparison read past the stored key (`HashTable.OverrunsExactlyWhen`,
  `HashTable.OverrunExample`); names that end in NUL are safe from each other.
- A pack that was read from a buffer with trailing bytes is sent on with a length that its bytes do not
  fill (`PackTransfer.ResendExactlyWhen`, `PackTransfer.TrailingByteExample`).
- Writing a pack stays inside every buffer that passes the length check exactly when the encoding is no
  longer than the 32-bit length it is announced with (`PackTransfer.WriteStaysInsideExactlyWhen`,
  `PackTransfer.OverflowExample`).
- A wrapped message of 0x000f0001 bytes is taken for a failure of the transport, and a read of no bytes
  still takes a frame (`SecureTransport.ReadSucceedsExactlyWhen`, `SecureTransport.ReservedExample`,
  `SecureTransport.EmptyReadTakesFrame`).
- A user is listed as themselves exactly when the encoder takes their identifier, which is when it has at
  most 1533 bytes, and its Base64 text has no '/' in it; a longer one stands under the text of the block,
  or under what the buffer held before when that is too long as well
  (`DirectoryNames.ListedExactlyWhen`, `DirectoryNames.SlashExample`, `DirectoryNames.LongExample`).
- Two users have separate directories exactly when the names in the path of neither begin those of the
  other (`DirectoryNames.ApartExactlyWhen`); otherwise they can share their token files or lose them
  together (`FileTree.SharedExample`, `FileTree.NestedExample`). For identifiers whose texts are single
  names the files are a map (`DirectoryNames.PlainApart`, `FileTree.WritingRepresents`,
  `FileTree.RemovingRepresents`).
- The rights mask of a listed user is the one the comment at `src/key_store/functions.c:215` promises, 0 for
  reading and 1 for reading and writing, exactly when the user can write; a user who can only read gets 3
  (`StoreServers.MaskIsPromisedExactlyWhen`, `StoreServers.MaskExample`).
- The index of the indexed-rights query goes through a signed 32-bit field
  (`KeyStoreRpc.IndexKeptExactlyWhen`).

## Model

| member | source | states |
|---|---|---|
| Consistency.LoadYields | src/mid_hermes_ll/mid_hermes_ll_block.c:355-389 | in a consistent state a load succeeds exactly for an authentic caller with a read token, and yields the stored plaintext, metadata and the keys in force |
| Consistency.CreateKeeps | src/mid_hermes/mid_hermes.c:116-159 | creation keeps every stored token openable, unless other users' tokens are left over under the identifier, and then it always breaks it |
| Consistency.UpdateKeeps | src/mid_hermes/mid_hermes.c:196-236 | an update keeps every stored token openable, whatever status it reports |
| Consistency.RotateKeeps | src/mid_hermes/mid_hermes.c:266-295 | a rotation keeps every stored token openable, under the new keys |
| Consistency.GrantKeeps | src/mid_hermes/mid_hermes.c:297-375 | a grant stores a token that opens the document for its receiver |
| Consistency.DeleteKeeps | src/mid_hermes/mid_hermes.c:238-264 | a deletion keeps the tokens of the remaining documents openable |
| Consistency.StepKeepsConsistent | src/mid_hermes/mid_hermes.c:116-459 | every whole call by any user keeps the invariant over the three stores, successful or not; the one exception is stated exactly |
| DocumentTable.LoadMeans | src/mid_hermes_ll/mid_hermes_ll_block.c:93-153 | what a load gives is what the plain table says the caller may read and write |
| DocumentTable.CreateRefines | src/mid_hermes/mid_hermes.c:116-159 | a creation replies and changes the stores as the plain table does |
| DocumentTable.UpdateRefines | src/mid_hermes/mid_hermes.c:196-236 | an update replies and changes the stores as the plain table does, the failure status after a write included |
| DocumentTable.DeleteRefines | src/mid_hermes/mid_hermes.c:238-264 | a deletion replies and changes the stores as the plain table does |
| DocumentTable.RotateRefines | src/mid_hermes/mid_hermes.c:266-295 | a rotation changes no content and no right; it makes the rotator the granter of every right |
| DocumentTable.GrantRefines | src/mid_hermes/mid_hermes.c:297-375 | a grant adds one right, granted by the caller |
| DocumentTable.DenyRefines | src/mid_hermes/mid_hermes.c:377-459 | a denial removes one right, or one user's entry; denying oneself reads as a failure and drops the write right |
| DocumentTable.StepRefinesTable | src/mid_hermes/mid_hermes.c:116-459 | from a consistent state every call has the reply and effect of the plain table |
| Runs.RunRefinesTable | src/mid_hermes/mid_hermes.c:116-459 | over every run in which no document is created under an identifier that others still hold rights on, all replies are the table's, the stores stand for the table, and every token opens |
| Runs.ConsistentThroughoutExactlyWhen | src/mid_hermes/mid_hermes.c:116-159 | when every creation draws new keys, every stored token opens at every point of a run exactly when no document is created under an identifier that others still hold rights on |
| Secrecy.OpensExactlyWhen | README.md:67-71 | after any such run with new keys, whoever sees both stores, holds some private keys and remembers some keys can open a document exactly when they remember its present read key or hold the private key of a user who can read it now |
| Secrecy.StoresOpenNothing | README.md:21 | what the servers store opens no document |
| Secrecy.RotationShutsOut | src/mid_hermes/mid_hermes.c:266-295 | after a rotation no key remembered from before opens the document, only the private keys of its readers do |
| Secrecy.StepKeepsApart | src/mid_hermes/mid_hermes.c:116-459 | from any state, every call keeps each read key in the read tokens of its own document and on no other document |
| Runs.StepWrites | docs/examples/c/mid_hermes/data_store_service/db.c:40-142 | from any state, which call changes which document: to what was written, to nothing, or not at all |
| Runs.StoredIsLastWrite | docs/examples/c/mid_hermes/data_store_service/db.c:40-90 | the stored content is that of the last accepted write, unless deleted since |
| Runs.ReadReturnsLastWrite | src/mid_hermes/mid_hermes.c:161-194 | an authentic caller with a read token reads exactly the last accepted write; everyone else gets a failure |
| Runs.DeleteLeavesOthers | src/mid_hermes_ll/mid_hermes_ll_block.c:481-517 | a deletion leaves every other user's entry, and when it reports a failure |
| Runs.ReuseBreaksReaders | src/mid_hermes/mid_hermes.c:116-159 | a left-over reader is refused a document created again under the same identifier, though the table grants it |
| Runs.ReuseExample | src/mid_hermes/mid_hermes.c:116-159 | a concrete run of a creation, a grant, a deletion and a second creation, after which the invariant is broken and the left-over reader is refused |
| Runs.LeftIsReached | src/mid_hermes/mid_hermes.c:238-264 | the stores that creation, grant and deletion leave: the reader's token and nothing else |
| Runs.UpdateReportsExactlyWhen | src/mid_hermes_ll/mid_hermes_ll_block.c:424-438 | an update by a caller who may read and write always writes, and reports success exactly when the granters of the caller's rights still hold them |
| Runs.UpdateExample | src/mid_hermes/mid_hermes.c:196-236 | a concrete run of six calls after which an update is reported as a failure and its content is stored |
| Runs.Snoc | src/mid_hermes/mid_hermes.c:116-459 | a run with one more call at its end: its stores, replies and table |
| Access.NonWriterChangesNothing | docs/examples/c/mid_hermes/data_store_service/db.c:70-77 | from any state, a call by a user without a write token changes no ciphertext, metadata, tag or write entry of the document |
| Access.StrangerIsRefused | src/mid_hermes_ll/mid_hermes_ll_block.c:355-389 | a caller with the wrong private key or no read token gets a failure and changes nothing |
| Access.RotationSucceedsWhen | src/mid_hermes_ll/mid_hermes_ll_block.c:197-267 | a rotation succeeds exactly for a reader and writer when every listed user can read, and otherwise changes nothing, so none of its key-store writes is refused |
| Access.RotatedStores | src/mid_hermes_ll/mid_hermes_ll_block.c:411-459 | every entry of the stores after a rotation |
| Access.RotationPreserves | src/mid_hermes_ll/mid_hermes_ll_block.c:197-267 | a rotation keeps plaintext, metadata and exactly the readers and writers, installs the new keys, and every remaining token opens them with the rotator as owner |
| Access.RevocationTakesRotation | src/mid_hermes/mid_hermes.c:377-417 | after a denial alone the old read key still opens the document; after a rotation it does not, and the other readers read the same content |
| LostUpdates.WritesFormOneChain | docs/examples/c/mid_hermes/data_store_service/db.c:57-77 | under every interleaving of loads and writes, creations under a drawn identifier that is taken included, the accepted writes on an identifier form one chain, each replacing what the previous one left and, for an update or a rotation, what its writer presented |
| LostUpdates.AcceptedExactlyWhen | docs/examples/c/mid_hermes/data_store_service/db.c:70-77 | a conditional write is accepted exactly when the document is gone, or carries the write key and the data-metadata concatenation the writer loaded |
| LostUpdates.SameContentExactlyWhen | src/mid_hermes_ll/utils.c:93-100 | the replaced data and metadata are those loaded exactly when the data did not change length |
| LostUpdates.BoundaryExample | src/mid_hermes_ll/utils.c:93-100 | a run in which an update is lost because the boundary between data and metadata moved |
| LostUpdates.RemovalExample | docs/examples/c/mid_hermes/data_store_service/db.c:65-77 | a run in which a document removed in between is put back |
| Provenance.LastGrant | src/key_store/functions.c:39-91 | a stored token is the content of the last accepted grant to its holder, whose owner held such a token then or is the holder |
| Provenance.HoldersHaveChains | src/key_store/functions.c:39-91 | every current holder is reached by a finite chain of earlier grants of the same kind, ending at a self-owned insertion |
| Provenance.LossNeedsWriter | src/key_store/functions.c:160-211 | a token vanishes only in a deletion requested in the name of a user holding a write token at that moment |
| Provenance.ChangeNeedsGrant | src/key_store/functions.c:39-91 | a token appears or changes only by an accepted grant to its holder |
| Tokens.PassedOnKeyIsTheSame | src/mid_hermes_ll/mid_hermes_ll_token.c:72-91 | a token passed on unwraps, for its receiver, to the very key the giver unwraps |
| StoreServers.KeyStore.WriteFiles | docs/examples/c/mid_hermes/key_store_service/db.c:42-88 | storing a token creates the user's directory at the end of the listing when missing, and keeps the other token |
| StoreServers.KeyStore.RemoveFiles | docs/examples/c/mid_hermes/key_store_service/db.c:59-61 | removing a read token removes the whole directory of the user and its place in the listing, removing a write token only that |
| StoreServers.KeyStore.ReadFiles | docs/examples/c/mid_hermes/key_store_service/db.c:90-130 | the stored token and owner, or nothing |
| StoreServers.KeyStore.IndexedRights | docs/examples/c/mid_hermes/key_store_service/db.c:132-170 | the user at a position of the directory, found by counting down, with a mask that is the promised one exactly when the user can write |
| StoreServers.MaskIsPromisedExactlyWhen | src/key_store/functions.c:215-216 | the mask is 0 for reading or 1 for reading and writing exactly for a user who can write |
| StoreServers.MaskExample | docs/examples/c/mid_hermes/key_store_service/db.c:158-162 | an entry with a read token alone, and its mask |
| StoreServers.KeyStore.Set | src/key_store/functions.c:39-91 | the authorised insertion: refused unless the owner is the user or holds a token of the same kind |
| StoreServers.KeyStore.Delete | src/key_store/functions.c:160-211 | the authorised deletion: refused unless the requester holds a write token |
| StoreServers.KeyStore.ListingIsUsers | docs/examples/c/mid_hermes/key_store_service/db.c:132-170 | the listing names exactly the users with an entry |
| DirectoryNames.ListedExactlyWhen | docs/examples/c/mid_hermes/key_store_service/db.c:142-154 | the directory entry of a user is read back as that user exactly when the encoder takes the identifier and its text has no separator in it; with a block identifier it does not take either, what the buffer held before is read back |
| DirectoryNames.FitsExactlyWhen | docs/examples/c/utils/utils.c:37-40 | the encoder takes an identifier exactly up to 1533 bytes |
| DirectoryNames.TextsDiffer | docs/examples/c/utils/utils.c:128-148 | two users of a block have two texts, unless they are the same or stand under the text of the block both |
| DirectoryNames.SlashExample | docs/examples/c/mid_hermes/key_store_service/db.c:147-154 | a concrete identifier that is read back as one of no bytes |
| DirectoryNames.LongExample | docs/examples/c/utils/utils.c:131-145 | any identifier of 1534 bytes is read back as that of the block |
| DirectoryNames.ApartExactlyWhen | docs/examples/c/utils/utils.c:128-148 | nothing lies in both of two directories exactly when neither lies in the other |
| DirectoryNames.PlainApart | docs/examples/c/utils/utils.c:128-148 | for identifiers whose texts are single names, the directories of two users of two blocks are apart exactly when they are different |
| FileTree.WritingRepresents | docs/examples/c/mid_hermes/key_store_service/db.c:42-65 | when the files stand for a map, they do after storing a token for identifiers of single names, for the map with that token |
| FileTree.RemovingRepresents | docs/examples/c/utils/utils.c:46-84 | the same for removing a token, with all of the user's directory for a read token |
| FileTree.ReadAfterRemove | docs/examples/c/utils/utils.c:46-84 | in any tree, a token is lost with a removed directory exactly when one of its two files lies in it |
| FileTree.ListingShowsUsers | docs/examples/c/mid_hermes/key_store_service/db.c:132-170 | reading the directory of a block shows exactly its users, each under a name that reads back |
| FileTree.SharedExample | docs/examples/c/mid_hermes/key_store_service/db.c:90-110 | two concrete users of whom one reads the token stored for the other, in any tree |
| FileTree.NestedExample | docs/examples/c/utils/utils.c:46-84 | two concrete users of whom one loses every token when the other is removed |
| StoreServers.DataStore.SetBlock | docs/examples/c/mid_hermes/data_store_service/db.c:40-90 | a stored document is replaced only against its stored tag; a missing one is written whatever the tag; otherwise nothing changes |
| StoreServers.DataStore.GetBlock | docs/examples/c/mid_hermes/data_store_service/db.c:92-114 | ciphertext and metadata of a stored document |
| StoreServers.DataStore.RemBlock | docs/examples/c/mid_hermes/data_store_service/db.c:116-142 | a document is removed exactly against its stored tag |
| RightsList.List.RPush | src/mid_hermes_ll/mid_hermes_ll_rights_list.c:57-72 | head, tail, length and both chains of links spell the old sequence followed by the new node |
| RightsList.List.RPushVal | src/mid_hermes_ll/mid_hermes_ll_rights_list.c:74-79 | the same for a new node with the given user and tokens |
| RightsList.List.Remove | src/mid_hermes_ll/mid_hermes_ll_rights_list.c:114-123 | the sequence without the removed node, all links and ends in agreement |
| RightsList.CutNeighbours | src/mid_hermes_ll/mid_hermes_ll_rights_list.c:114-123 | taking one element out changes the neighbours of its two neighbours only |
| RightsList.List.Find | src/mid_hermes_ll/mid_hermes_ll_rights_list.c:96-112 | the first node of the user, or nothing when there is none |
| RightsList.List.Next | src/mid_hermes_ll/mid_hermes_ll_rights_list.c:143-160 | the cursor yields exactly the elements in order, then nothing |
| BlockObject.Block.InitNew | src/mid_hermes_ll/mid_hermes_ll_block.c:41-89 | a new block: tokens for the user around the drawn keys, ciphertext and tag matching them |
| BlockObject.Block.InitLoaded | src/mid_hermes_ll/mid_hermes_ll_block.c:93-153 | opening a stored block: succeeds exactly when the tokens open and the document decrypts; the tag is recomputed |
| BlockObject.Block.Update | src/mid_hermes_ll/mid_hermes_ll_block.c:155-195 | after an update, ciphertext and tag match the new content, and the tag presented to the store stays the one last stored |
| BlockObject.Block.Rotate | src/mid_hermes_ll/mid_hermes_ll_block.c:197-267 | after a rotation, ciphertext and tag match the content under the new keys, every listed user's tokens are rewrapped, and the tag presented stays |
| BlockObject.Block.Load | src/mid_hermes_ll/mid_hermes_ll_block.c:355-389 | loading through the three stores is the protocol's load |
| BlockObject.Block.FetchToken | src/mid_hermes_ll/mid_hermes_ll_block.c:322-353 | the token as loaded: missing when its owner has no credentials |
| BlockObject.Block.Visit | src/mid_hermes_ll/mid_hermes_ll_block.c:293-317 | one directory entry of a rights listing |
| BlockObject.Block.AccessRights | src/mid_hermes_ll/mid_hermes_ll_block.c:284-320 | the rights list holds the tokens of everyone listed but the local user, in order, or the listing fails |
| BlockObject.RewrapShares | src/mid_hermes_ll/mid_hermes_ll_block.c:241-266 | every node's tokens are replaced in place by the new keys wrapped for its user, the write token only where there was one |
| BlockObject.Block.Save | src/mid_hermes_ll/mid_hermes_ll_block.c:411-459 | the data store is written against the standing tag, then the tokens in order up to the first refusal; after an accepted write the standing tag is the stored one, after a refused one nothing has changed |
| BlockObject.Block.SaveList | src/mid_hermes_ll/mid_hermes_ll_block.c:440-457 | the rights list's tokens are stored in order, stopping at the first refusal |
| BlockObject.Block.Delete | src/mid_hermes_ll/mid_hermes_ll_block.c:481-517 | removal against the standing tag, then the user's entry, then the listed users up to the first refusal |
| BlockObject.Block.DropList | src/mid_hermes_ll/mid_hermes_ll_block.c:498-515 | the deletions of the listed users in order, stopping at the first refusal |
| BlockObject.SaveStops | src/mid_hermes_ll/mid_hermes_ll_block.c:446-455 | a refusal ends the saving with what was stored by then |
| BlockObject.PrefixFails | src/mid_hermes_ll/mid_hermes_ll_block.c:307-316 | a listing that fails at one user fails as a whole |
| Saving.ResavingIsIdle | src/mid_hermes_ll/mid_hermes_ll_block.c:432-438 | storing the loaded tokens again changes nothing, and is accepted exactly when their granters still hold tokens |
| Saving.SavingNew | src/mid_hermes_ll/mid_hermes_ll_block.c:432-438 | a new document's own tokens are never refused |
| Saving.ListingMeans | src/mid_hermes/key_store_impl.c:155-188 | a rights list exists exactly when everyone listed has credentials and a read token, and names everyone but the local user |
| Saving.ListingNames | src/mid_hermes_ll/mid_hermes_ll_block.c:284-320 | the same for the first users of a directory |
| Saving.SaveRotatedShare | src/mid_hermes_ll/mid_hermes_ll_block.c:446-455 | storing one rewrapped share is never refused once the rotator's own tokens are in, and rotates that user's entry |
| Saving.SaveRotatedShares | src/mid_hermes_ll/mid_hermes_ll_block.c:440-457 | the same for the whole list |
| Saving.SavingRotates | src/mid_hermes_ll/mid_hermes_ll_block.c:432-457 | none of a rotation's key-store writes is refused, and together they rotate every entry of the block |
| Saving.DroppingIsRefused | src/mid_hermes_ll/mid_hermes_ll_block.c:498-508 | once the deleter's own entry is gone, the first deletion for anyone else is refused |
| MidHermes.Session.CreateBlock | src/mid_hermes/mid_hermes.c:116-159 | the imperative creation makes exactly the protocol's transition |
| MidHermes.Session.ReadBlock | src/mid_hermes/mid_hermes.c:161-194 | the imperative read gives exactly the protocol's reply and changes nothing |
| MidHermes.Session.UpdateBlock | src/mid_hermes/mid_hermes.c:196-236 | the imperative update makes exactly the protocol's transition |
| MidHermes.Session.DeleteBlock | src/mid_hermes/mid_hermes.c:238-264 | the imperative deletion makes exactly the protocol's transition |
| MidHermes.Session.RotateBlock | src/mid_hermes/mid_hermes.c:266-295 | the imperative rotation makes exactly the protocol's transition |
| MidHermes.Session.Grant | src/mid_hermes/mid_hermes.c:297-375 | the imperative grant makes exactly the protocol's transition |
| MidHermes.Session.Deny | src/mid_hermes/mid_hermes.c:377-459 | the imperative denial makes exactly the protocol's transition |
| ParamPack.Le32RoundTrip | src/rpc/param_pack.c:217 | a 32-bit field reads back as the number written |
| ParamPack.ParsedEncodes | src/rpc/param_pack.c:318-349 | a parameter that parses is followed by nothing but its own encoding |
| ParamPack.AllEncodedParses | src/rpc/param_pack.c:318-349 | encoded parameters, followed by anything, parse back to themselves |
| ParamPack.AllParsedEncodes | src/rpc/param_pack.c:318-349 | parameters that parse are exactly those whose encoding the buffer starts with |
| ParamPack.ParsesExactlyWellFormed | src/rpc/param_pack.c:311-351 | the first pass accepts a buffer exactly when it starts with a well-formed encoding, trailing bytes or not |
| ParamPack.EncodingParses | src/rpc/param_pack.c:311-351 | an encoding is accepted whatever follows it, and gives the encoded parameters |
| PackTransfer.WholeLength | src/rpc/param_pack.c:175-200 | the 32-bit sum of the sizes, wrapped, or the length of the buffer a read pack came from |
| Channel.Channel.Send | docs/examples/c/mid_hermes/common/transport.c:60-70 | appends the bytes, or refuses to send nothing |
| Channel.Channel.Recv | docs/examples/c/mid_hermes/common/transport.c:72-89 | takes the whole amount, or fails and takes nothing; a read of nothing is refused |
| PackTransfer.FirstIsAll | src/rpc/param_pack.c:219-251 | what the loop emits is the encoding, whose length is the sum of the sizes |
| PackTransfer.Write | src/rpc/param_pack.c:202-254 | fills exactly the encoding with every buffer kind normalised and touches nothing after it; a missing or small buffer is answered with the announced length, which may have wrapped |
| PackTransfer.WriteStaysInsideExactlyWhen | src/rpc/param_pack.c:206-213 | the length check protects every buffer exactly when the encoding is no longer than announced |
| PackTransfer.OverflowExample | src/rpc/param_pack.c:201-213 | a pack of one buffer that a buffer of one byte passes the length check for |
| PackTransfer.CheckBuf | src/rpc/param_pack.c:311-351 | accepts exactly what parses, every field checked before it is read |
| PackTransfer.ReadOne | src/rpc/param_pack.c:366-385 | the unchecked second pass stays in range and reads the parameter the first pass accepted |
| PackTransfer.Read | src/rpc/param_pack.c:353-391 | acceptance alone keeps every access in range and the nodes at most 20; the result is the parsed parameters in order |
| PackTransfer.WriteReadRoundTrip | src/rpc/param_pack.c:202-254 | reading back what was written yields the same parameters in order, buffers normalised |
| PackTransfer.Extract | src/rpc/param_pack.c:128-173 | hands over the values up to the first parameter of another type or the end, and succeeds exactly when those are all that was asked for |
| PackTransfer.PiecesAreSent | src/rpc/param_pack.c:256-309 | the single sends of a pack without empty buffers, put together, are its announced length followed by its buffer form |
| PackTransfer.Send | src/rpc/param_pack.c:256-309 | puts the announced length and the parameters on the channel in exactly the pieces listed, up to the first empty buffer, whose refusal is reported |
| PackTransfer.SendOne | src/rpc/param_pack.c:273-301 | one parameter: an empty buffer is refused after its type and length |
| PackTransfer.Receive | src/rpc/param_pack.c:393-413 | takes the length and that many bytes, and parses them |
| PackTransfer.SentArrivesExactlyWhen | src/rpc/param_pack.c:393-413 | a receiver gets the parameters of a pack, and takes exactly the bytes sent from any longer stream, exactly when the announced length is that of the encoding and no buffer but the last is empty |
| PackTransfer.ShortLeaves | src/rpc/param_pack.c:393-413 | a pack announced too short but sent to the end leaves bytes behind |
| PackTransfer.ResendExactlyWhen | src/rpc/param_pack.c:179-181 | a pack that was read is received as sent on exactly when its buffer had no trailing bytes and no parameter but the last was empty |
| PackTransfer.TrailingByteExample | src/rpc/param_pack.c:179-181 | a concrete buffer with one byte too many, what sending it on looks like, and the byte it takes from what follows |
| HashTable.Hash | src/common/hm_hash_table.c:71-79 | the loop on wrapping words computes the djb2 bucket |
| HashTable.MemCmp | src/common/hm_hash_table.c:112 | comparing a key with the front of a stored one: the order at the first difference, and zero exactly when the stored one starts with the key |
| HashTable.BeforeIsStrict | src/common/hm_hash_table.c:112-115 | the order of a chain is strict, and ordered keys are not prefixes of each other |
| HashTable.BeforeChains | src/common/hm_hash_table.c:112-115 | the order carries over, also to longer keys |
| HashTable.NothingMissed | src/common/hm_hash_table.c:141-146 | a search that stops early has missed no stored key that starts with the one asked for |
| HashTable.FirstHit | src/common/hm_hash_table.c:141-146 | a search that stops at a match has found the first one |
| HashTable.LookupIsMapLookup | src/common/hm_hash_table.c:134-150 | the search is the lookup of a finite map exactly for bound keys and for keys that no bound key of the bucket starts with |
| HashTable.OverrunsExactlyWhen | src/common/hm_hash_table.c:112 | a search reaches a stored key that ends inside the key looked for exactly when the bucket holds one |
| HashTable.OverrunExample | src/common/hm_hash_table.c:144 | a concrete pair of keys in one bucket where the comparison reads past the stored one |
| HashTable.NamesLookUpExactly | include/hermes/rpc/server.h:50 | for names that end in NUL and hold no other, the search is always the lookup of a finite map |
| HashTable.ShorterKeyHits | src/common/hm_hash_table.c:144 | a concrete pair of keys without terminators for which it is not |
| HashTable.SplicedRepresents | src/common/hm_hash_table.c:120-130 | a new key spliced in at its place keeps the chain strictly ordered and adds only its binding |
| HashTable.Splice | src/common/hm_hash_table.c:121-130 | the three ways of tying an entry in leave one chain with the entry at its place, and the other buckets as they were |
| HashTable.Seek | src/common/hm_hash_table.c:111-115 | the first entry not before the key, and the one ahead of it |
| HashTable.Table.Get | src/common/hm_hash_table.c:134-150 | the binding of the first stored key that starts with the key, a failure when there is none |
| HashTable.Table.Insert | src/common/hm_hash_table.c:119-130 | the table with one more binding, every chain ordered and linked |
| HashTable.Table.Set | src/common/hm_hash_table.c:104-132 | a present key is refused and nothing changes; a new key adds exactly its binding |
| Rpc.Server.RegFunc | src/rpc/server.c:61-70 | registers a function under a new name, refuses a name that is taken |
| Rpc.Server.SendError | src/rpc/server.c:72-77 | an error word, never the success status |
| Rpc.Server.SendResult | src/rpc/server.c:79-91 | the success word, then the out parameters as far as they get out |
| Rpc.Server.CallFunc | src/rpc/server.c:94-143 | the answer to a name and the parameters still in the channel, in every case |
| Rpc.Server.Call | src/rpc/server.c:145-162 | takes a name off the channel and answers it |
| Rpc.Client.SyncCall | src/rpc/client.c:52-83 | sends the request in order, stops where a send is refused, and otherwise makes of the reply what the exchange with the server dictates |
| Rpc.Client.TakeAnswer | src/rpc/client.c:72-82 | takes the error word, and the out parameters exactly when the call succeeded and asked for some |
| Rpc.NameArrives | src/rpc/server.c:149-158 | the server reads back the name the client sent, and leaves the parameters |
| Rpc.ReplyArrives | src/rpc/client.c:72-82 | a reply reaches the caller and empties the channel exactly when the out parameters go through and the caller asked for them |
| Rpc.CallIsDirectExactlyWhen | src/rpc/client.c:52-83 | one call to a registered function: the caller sees what the stub says and both channels are empty again, exactly when request and reply go through whole and stub and proxy agree |
| Rpc.UnregisteredLeavesParameters | src/rpc/server.c:103-112 | a call to an unregistered function is answered with a failure and leaves its parameters in the channel |
| Rpc.RefusedRequestStays | src/rpc/client.c:69-71 | a request that is refused on the way is reported without the server, and what got out stays in the channel |
| Rpc.EmptyBufferExample | src/rpc/param_pack.c:295-300 | a concrete request of one empty buffer, reported as a failure with all its bytes on the channel |
| Rpc.ServedWhenCarried | src/rpc/server.c:113-133 | a request that goes through is taken off the channel whole, and answered as the stub says |
| Rpc.SessionIsDirect | src/rpc/server.c:94-162 | over any session of such calls, all answers and the final state are those of the stubs run directly, and the channels are empty after every call |
| Rpc.SessionIsDirectExactlyWhen | src/rpc/server.c:94-162 | and that holds at every point of a session only when it holds for every call |
| KeyStoreRpc.Start | src/key_store/server.c:48-76 | a new server registers its seven functions, none refused |
| KeyStoreRpc.Ask | src/rpc/client.c:52-83 | one operation through the wire has the answer and state of its stub and leaves the wire empty exactly when request and reply go through |
| KeyStoreRpc.SetProxy | src/key_store/functions.c:242-294 | storing a token remotely has the status and the effect of the authorised operation |
| KeyStoreRpc.GetProxy | src/key_store/functions.c:296-364 | loading a token remotely gives the stored token and owner and changes nothing |
| KeyStoreRpc.DelProxy | src/key_store/functions.c:366-414 | deleting a token remotely has the status and the effect of the authorised operation |
| KeyStoreRpc.IndexedProxy | src/key_store/functions.c:416-448 | the indexed query made remotely gives the user and mask at the index that the 32-bit field holds |
| KeyStoreRpc.IndexKeptExactlyWhen | src/key_store/functions.c:424 | an index survives the field exactly below two to the 31 |
| SecureTransport.Be32RoundTrip | src/secure_transport/utils.c:24-40 | the frame length reads back as written |
| SecureTransport.Transport.Send | src/secure_transport/transport.c:77-98 | one frame with the wrapped message, or a failure and nothing when the session does not admit the message |
| SecureTransport.Transport.ReadDataSize | src/secure_transport/utils.c:33-41 | the frame length, or the failure status, which look alike |
| SecureTransport.Transport.ReceiveFrame | src/secure_transport/transport.c:85-123 | one turn of the loop places one message at its offset in the buffer |
| SecureTransport.Transport.Receive | src/secure_transport/transport.c:102-144 | the loop fills the buffer from successive frames, or fails; either way the buffer holds what was gathered and is untouched behind it |
| SecureTransport.PrefixArrives | src/secure_transport/transport.c:102-144 | a read as long as the first pending messages together returns their concatenation and leaves the rest |
| SecureTransport.ReadSucceedsExactlyWhen | src/secure_transport/transport.c:102-144 | a read succeeds exactly when its length is the total of some first messages, none of the reserved size |
| SecureTransport.EmptyReadTakesFrame | src/secure_transport/transport.c:102-123 | a read of no bytes takes the next frame off the wire, and fails without counting the message |
| SecureTransport.ReservedExample | src/secure_transport/transport.c:89-92 | there, a message with the reserved size, and the read that fails on it |
| SecureTransport.GroupsArrive | src/secure_transport/transport.c:102-144 | reads as long as consecutive groups of messages return the groups, put together, one after the other |
| SecureTransport.PiecesAdmittedExactlyWhen | src/rpc/param_pack.c:271-307 | a session admits every single send of a pack exactly when no buffer is empty or beyond its limit |
| SecureTransport.PackCrosses | src/rpc/param_pack.c:256-309 | the many sends of one pack are matched by the two reads of one receive |
| SecureRpc.RequestCrosses | src/rpc/client.c:63-71 | the sends of a request are matched by the four reads of the server, which get the very bytes of the plain channel |
| SecureRpc.ReplyCrosses | src/rpc/server.c:83-89 | the sends of a reply are matched by the three reads of the client |
| SecureRpc.ErrorCrosses | src/rpc/server.c:72-77 | an error word crosses alone |
| SecureSession.FramesAppend | src/secure_transport/transport.c:77-98 | what is sent in two parts is on the wire as one |
| SecureSession.SendMessages | src/secure_transport/transport.c:77-98 | sends in a row put exactly their frames on the wire, numbered on |
| SecureSession.ReadGroup | src/secure_transport/transport.c:102-144 | a read as long as the first pending sends together returns them and leaves the others pending |
| SecureSession.ReadPack | src/rpc/param_pack.c:393-413 | the sends of a pack are received as its parameters in two reads |
| SecureSession.Serve | src/rpc/server.c:94-162 | the server takes a request off the connection, runs the function and sends exactly its answer |
| SecureSession.TakeReply | src/rpc/client.c:72-82 | the client takes the whole answer off the connection and returns what the function says |
| SecureSession.SyncCall | src/rpc/client.c:52-83 | one call over the encrypted connection has the answer and the state of the function run directly, and leaves the connection quiet |
| SecureSession.RunSession | src/rpc/server.c:94-162 | over any session of such calls, all answers and the final state are those of the functions run directly |
| SecureSession.SecureIsPlain | src/secure_transport/transport.c:77-144 | and they are the answers and the state of the same session over plain channels |
| SecureSession.GoesExample | src/rpc/client.c:63-71 | a concrete call and session that meet the conditions |
| Base64.TablesAreInverse | docs/examples/c/utils/base64.c:26-38 | the letters and the decoding table are inverse, and every other character is refused |
| Base64.RfcAt | docs/examples/c/utils/base64.c:61-89 | the text of the group-of-three definition, its length and each letter as six bits of the input |
| Base64.EmitsSextet | docs/examples/c/utils/base64.c:75-82 | whatever has been shifted out of the 32-bit accumulator, the next letter is the next six bits |
| Base64.EncodeBytes | docs/examples/c/utils/base64.c:74-83 | the nested loops write exactly the unpadded letters and touch nothing else |
| Base64.Encode | docs/examples/c/utils/base64.c:61-89 | exactly the text of RFC 4648 section 4 and a NUL, BASE64_SIZE bytes; refused exactly when too long or the buffer too small, and then nothing is written |
| Base64.Cuts | docs/examples/c/utils/base64.c:50-55 | each byte cut from the wrapped accumulator is made of the two values last read |
| Base64.Decode | docs/examples/c/utils/base64.c:40-59 | refuses exactly the texts with a character that has no value; otherwise the decoded bytes, cut to the buffer, and their count |
| Base64.RoundTrip | docs/examples/c/utils/base64.c:40-89 | what was encoded decodes to itself, for every input, cut to the buffer, whatever follows the NUL |
| MemCmp.CompareMeans | src/common/mem_cmp.c:26-38 | zero, negative or positive exactly as the buffers are equal, or one is smaller at the first difference |
| MemCmp.FoldSign | src/common/mem_cmp.c:33-34 | one masked turn lets a difference replace the result and no difference keep it |
| MemCmp.CstTimeMemCmp | src/common/mem_cmp.c:26-38 | the backward scan returns the sign of the first difference |
| MemCmp.IsEqual | src/mid_hermes_ll/mid_hermes_ll_buffer.c:60-67 | two buffers are equal exactly when they hold the same bytes |

## Left out

- Themis and Soter: the cipher, the tag, the key wrapping and the secure session are symbolic; the
  session handshake is not part of this model.
- Sockets, pipes, files and directory paths: a channel is a queue of bytes, a service's files are a map
  (for the key store see `FileTree.dfy`),
  and the order in which a directory is read back is a sequence the model does not constrain.
- Threads and the accept loops of the services; the server runs where the client waits for its reply.
- Random keys and identifiers are parameters of a call.
- Memory: allocation failures, NULL arguments, destruction and ownership.
- Python and Go bindings, the command-line clients and the build files.
- `src/rpc/buffers_list.c`, whose loops do not advance, and the extraction of that kind; such a parameter
  is sent as a buffer and modelled as one.
- `src/common/buffer.c`, whose push and pop do not match.
- `rpop` of the rights list, which the protocol never calls.
- Key-store writes of two clients interleaved inside one save or one grant: token consistency is stated
  for whole calls, and interleaving for the data store's compare-and-swap only.
- The proxies and stubs of the data store and the credential store, which repeat those of the key store.
- The rights-list iterator is a cursor held by its user, not an object of its own.
- The initialiser of a block is split in two methods, one for a new block and one for a loaded block.
- A read pack keeps copies of its buffers; that its nodes point into the received buffer is not modelled.
- Channel.Channel.Recv: fails where a stream ends early, as the comment in the pack header asks;
  `transport_recv` of the services reports a success there.
- The limits of a file system on the length of names and paths.
- StoreServers.KeyStore.WriteFiles: is stated on a map from block and user; `FileTree.WritingRepresents` says
  for which identifiers the files are one, and `FileTree.SharedExample` what else can happen.
- StoreServers.KeyStore.RemoveFiles: the same, by `FileTree.RemovingRepresents` and `FileTree.NestedExample`.
- StoreServers.KeyStore.IndexedRights: the same; `DirectoryNames.ListedExactlyWhen` says which users are read
  back as themselves.
- StoreServers.KeyStore.ListingIsUsers: the same, by `FileTree.ListingShowsUsers`.
- SecureSession.SyncCall: is stated for calls that go through; where they stop otherwise is stated for the
  plain channel and for single reads.
- SecureSession.RunSession: the same.
- HashTable.MemCmp: a stored key that ends inside the compared key is excluded, because the source then reads
  past the stored key; `HashTable.OverrunsExactlyWhen` says when that happens.
- HashTable.LookupIsMapLookup: excludes such keys for that reason.
- HashTable.Seek: excludes such keys for that reason.
- HashTable.Table.Get: excludes such keys for that reason, and the table holds values of one type where the
  source copies bytes.
- HashTable.Table.Set: excludes such keys for that reason.
- Rpc.Server.RegFunc: excludes such names for that reason.
- Rpc.Server.CallFunc: excludes such names for that reason.
- Rpc.Server.Call: excludes such names for that reason, when they arrive.
- Rpc.Client.SyncCall: excludes such names for that reason, when they arrive at the server.
- PackTransfer.Write: past the length check the buffer must take the encoding, because the source writes it
  without another check; `PackTransfer.WriteStaysInsideExactlyWhen` says when that is no condition.
- Rpc.CallIsDirectExactlyWhen: is stated for packs built locally and names below two to the 32 bytes.
- Rpc.SessionIsDirect: the same.
