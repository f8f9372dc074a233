# Smart File Vault — request logic, modelled in Dafny

The vault stores uploaded files encrypted at rest. Each file has a record holding
its owner, its original name, where the ciphertext lives, and the hex-encoded
AES-256 key and IV. The owner can list, download, share and delete their files.
A share issues a random token that is valid for 24 hours. Anyone holding the
token can download the decrypted file without logging in. A bearer-token
middleware guards every owner route.

The model is made of these parts:

- `FileModel` (`file_model.dfy`): the record as the file schema defines it. It
  covers the required fields, the null defaults of the two share fields and the
  `createdAt` default. Mongoose's `required` check is modelled as the predicate
  `Conforms`: every required string must be non-empty, and the owner must be
  present. The schema types `user` as an ObjectId. The model keeps its string form,
  the canonical lower-case hex that `file.user.toString()` gives. The routes
  compare it with the `id` claim of the caller's token. Comparing raw strings
  is sound because login and signup put exactly that `user.id` string into the
  token (routes/auth.js:36 and :87).
- `Auth` (`auth.dfy`): the middleware as a pure decision on the `Authorization`
  header. It returns either a 401 denial or the identity taken from the verified
  token. Signature verification is a function parameter (`verify`) standing for
  the JWT check under the server secret.
- `Files` (`files.dfy`): the routes, as methods of a class `Vault` whose field
  `files: map<FileId, FileRecord>` is the record store. Upload saves a record.
  Share replaces a record's token and expiry. Delete removes the record. List,
  download and shared download only read. Replies are values of `Reply`. A
  served download is described by the decryption it streams: the ciphertext
  path, key and IV, plus the `Content-Disposition` header. `Vault.Valid()` is
  the store invariant that every mutating route keeps. It requires that each
  record meets the schema, holds a token exactly when it holds an expiry, has a
  64-hex-digit key and a 32-hex-digit IV, holds a share token of 64 lower-case
  hex characters when it holds one, and has its path as `uploads/<stored name>`. It also requires that no two records hold the same
  token.
- `Text` (`text.dfy`): the string operations the routes and the middleware
  rely on:
  - `split(' ')` and `startsWith`, used by the middleware;
  - the decimal rendering of `Date.now()`, used by the upload route;
  - `Buffer.toString('hex')`, used by the upload and share routes.

  Split, the decimal rendering and the hex rendering each have their inverse
  or characterisation proved. `startsWith` is the plain prefix test, shown on
  the middleware's examples.
- `Walkthrough` (`walkthrough.dfy`): a client that goes through upload, list,
  a foreign download, share, shared download before and after expiry, and
  delete. It uses only the route contracts.

Inputs the code takes from outside are parameters:

- the clock (`nameTime`, `saveTime`, `now`);
- the random draws (`key`, `iv`, `tokenBytes`), and the id the store assigns;
- whether the ciphertext write finished (`writeFinished`);
- the files present on disk (`onDisk`, for `existsSync`);
- the `FRONTEND_URL` setting (`frontendUrl`).

Behaviour of the code worth noting:

- Owner download does not check that the ciphertext file exists. Only the
  shared download returns "File not found on server".
- Missing credentials and a non-owner caller both get status 401.
- Delete removes the record whatever the outcome of removing the ciphertext file.
- The upload reads the clock twice. The first read names the file (line 25).
  The second is the `createdAt` default, read when the record is built after
  the write has finished (line 38).

## Model

| member | source | states |
|---|---|---|
| `FileModel.NewFile` | models/File.js:3-45 | A new record carries the seven supplied fields unchanged. Both share fields are null (the not-shared state, consistent). `createdAt` is the creation time. It meets the schema's required check exactly when all six required strings are non-empty. |
| `Auth.Authenticate` | middleware/auth.js:3-24 | An absent header, or one not starting with the case-sensitive `Bearer ` including the space, gives 401 "No token, authorization denied". Otherwise a failed verification of the header token gives 401 "Token is not valid", and a successful one proceeds with the decoded `user`. Every denial is 401, and it proceeds exactly when the prefix matches and verification succeeds. |
| `Auth.HeaderToken` | middleware/auth.js:13 | Element 1 of the header split on single spaces. It contains no space, it starts the text after the prefix, and it is followed by a space or by the end of the header. |
| `Auth.DoubleSpaceGivesEmptyToken` | middleware/auth.js:13 | `Bearer  x` (two spaces) gives the empty token. |
| `Auth.SingleSegmentToken` | middleware/auth.js:13 | For a token without spaces, `Bearer <token>` passes the prefix check and yields exactly that token. |
| `Auth.LowerCaseSchemeDenied` | middleware/auth.js:8-10 | `bearer <anything>` is denied with the no-token message whatever the verifier would say. |
| `Text.Split` | middleware/auth.js:13 | `split` on a one-character separator yields one more segment than there are separators, and no segment contains the separator. |
| `Text.JoinSplit` | middleware/auth.js:13 | Joining the segments with the separator gives back the original string. |
| `Text.TakeUntil` | middleware/auth.js:13 | The text before the first separator: a separator-free prefix followed by a separator or by the end. |
| `Text.SplitFirst` | middleware/auth.js:13 | Segment 0 of a split is the text before the first separator. |
| `Text.SplitAfterHead` | middleware/auth.js:13 | A string that is a separator-free head, a separator and a tail splits into the head followed by the tail's segments. |
| `Text.DecimalString` | routes/files.js:25 | The rendering of `Date.now()` is non-empty, all decimal digits, and has no leading zero. |
| `Text.ParseDecimalString` | routes/files.js:25 | Reading the rendering back gives the timestamp. |
| `Text.DecimalStringInjective` | routes/files.js:25 | Distinct timestamps render differently. |
| `Text.Hex` | routes/files.js:44-45 | Hex rendering is two lower-case hex digits per byte: 32 key bytes give 64 characters, 16 IV bytes give 32. |
| `Text.UnHexHex` | routes/files.js:88-89 | Decoding the stored hex (as download does before deciphering) gives back the drawn bytes. |
| `Text.HexInjective` | routes/files.js:20-45 | Distinct random draws give distinct stored strings. |
| `Files.StoredNameInjective` | routes/files.js:25 | The stored name `<timestamp>-<originalName>.enc` determines both the timestamp and the original name. So two uploads get the same stored name, and hence the same location, exactly when they share both the millisecond and the original name. |
| `Files.SameInstantSamePath` | routes/files.js:25-29 | Two uploads of one original name at the same clock reading, by any two callers, get the same `path`. Both records are well-formed, so the store invariant allows the shared location. |
| `Files.UploadRecord` | routes/files.js:20-46 | The uploaded record: `user` is the caller, and `originalName` and `size` are as supplied. `encryptedName` is `<now>-<originalName>.enc` and `path` is `uploads/` plus it. The key and IV are 64 and 32 hex characters that decode to the drawn bytes. It is not shared and was created at the save instant. It meets the schema exactly when caller id and original name are non-empty. |
| `Files.Vault.Upload` | routes/files.js:16-51 | With a finished write and a conforming record: the store gains exactly that record under the new id, the reply is 201 with the new id and the full record, key and IV included, the owner's gate grants it, and the owner's list shows it without secrets. With an unfinished write or a failed validation: the store is unchanged and nothing is sent. The store invariant is kept. |
| `Files.Vault.List` | routes/files.js:62-65 | Its keys are exactly the ids of the caller's records, and each entry is that record with the key and IV removed. |
| `Files.StripDropsOnlySecrets` | routes/files.js:64 | Two records list alike exactly when they differ at most in `encryptionKey` and `iv`. |
| `Files.Authorize` | routes/files.js:77-86 | The owner gate: missing exactly when the id is unknown, whatever the caller. Foreign exactly when the record exists and has another owner. Granted, with that record, exactly to its owner. |
| `Files.Refusal` | routes/files.js:79-86 | A missing record gives 404 "File not found", and another owner's record gives 401 "Not authorized". |
| `Files.Serve` | routes/files.js:88-98 | A served download streams the record's ciphertext path with its key and IV, under `Content-Disposition: attachment; filename="<originalName>"`. |
| `Files.Vault.Download` | routes/files.js:75-98 | Unknown id gives 404. Another owner's record gives 401. The owner's record is served. The store is unchanged. |
| `Files.Vault.SharedDownload` | routes/files.js:109-145 | A token held by no record gives 404 "File not found or invalid link", and the expiry is not consulted. For the record holding the token: `now` strictly after the expiry gives 410; otherwise a missing ciphertext gives 404 "File not found on server"; otherwise the file is served. The store is unchanged. |
| `Files.ServedUntilExpiry` | routes/files.js:120-123 | A link issued at `t` is accepted exactly while `now <= t + 86400000`, including the expiry instant itself. |
| `Files.Vault.Share` | routes/files.js:156-187 | Unknown id gives 404 and another owner gives 401, both with the store unchanged. For the owner, only that record's `shareToken` (the 64-hex rendering of the draw) and `shareLinkExpires` (`now + 86400000`) change. The new token resolves to exactly that record, the previous token resolves to none, and the reply is the share URL. The store invariant is kept. |
| `Files.ShareUrlCarriesToken` | routes/files.js:184 | The share URL starts with the frontend base and ends with `/shared/` followed by the token. |
| `Files.FrontendBaseChoice` | routes/files.js:184 | The link base is never empty. It is the `FRONTEND_URL` setting when that is set and non-empty, and the default frontend otherwise. |
| `Files.UploadPathSegments` | routes/files.js:26 | For a name without `/`, the location splits on `/` into exactly two segments: the upload directory and the stored name. |
| `Files.Vault.Delete` | routes/files.js:198-220 | Unknown id gives 404 and another owner gives 401, both with the store unchanged. For the owner, the record and nothing else is removed and the reply is 200 "File deleted successfully". Afterwards the gate reports the id missing for every caller and no caller's list contains it. |
| `Files.Expired` | routes/files.js:120 | Definition: `now` strictly after the stored expiry, with a null expiry comparing as 0. Characterised by `Files.ServedUntilExpiry`. |
| `Files.TokenHolders` | routes/files.js:112 | Definition: the records whose `shareToken` equals the requested token, the filter of the token lookup. Used by `Files.Vault.SharedDownload` and `Files.Vault.Share`. |
| `FileModel.Conforms` | models/File.js:4-32 | Definition: the `required` validation run on save. Characterised by `FileModel.NewFile` and `Files.UploadRecord`. |
| `Files.StoredName` | routes/files.js:25 | Definition: `<timestamp>-<originalName>.enc`. Characterised by `Files.StoredNameInjective`. |
| `Files.UploadPath` | routes/files.js:26 | Definition: `path.join('uploads', name)` for a single-segment name. Characterised by `Files.UploadPathSegments`. Used by `Files.UploadRecord`. |
| `Files.Strip` | routes/files.js:64 | Definition: the projection without `encryptionKey` and `iv`. Characterised by `Files.StripDropsOnlySecrets`. |
| `Files.ContentDisposition` | routes/files.js:96 | Definition: `attachment; filename="<name>"`. Characterised by `Files.Serve`. |
| `Files.FrontendBase` | routes/files.js:184 | Definition: `FRONTEND_URL` when it is set and non-empty, otherwise the default frontend. Characterised by `Files.FrontendBaseChoice`. |
| `Files.ShareUrl` | routes/files.js:184 | Definition: the frontend base, then `/shared/`, then the token. Characterised by `Files.ShareUrlCarriesToken`. Used by `Files.Vault.Share`. |
| `Text.StartsWith` | middleware/auth.js:8 | Definition: a case-sensitive prefix test. Used by `Auth.Authenticate` and shown on the examples `Auth.SingleSegmentToken` and `Auth.LowerCaseSchemeDenied`. |
| `Text.UnHex` | routes/files.js:88-89 | Definition: `Buffer.from(s, 'hex')` on well-formed hex. Characterised by `Text.UnHexHex`. |

## Left out

- AES-256-CBC encryption and decryption: ciphertext is opaque, and a download is
  described by the key, IV and path it deciphers with. The byte-level round trip
  is a property of the cipher library, not of this code.
- Streams and backpressure, the multer temporary file and its removal, the
  `fs.unlink` of delete, and the partially written ciphertext left behind by an
  unfinished upload. The model keeps no file-system state. `existsSync` is the
  `onDisk` parameter.
- The database: queries and saves become reads and writes of the `files` map,
  each taken as atomic. Listing results are returned as a map from id, so their
  order is not modelled.
- `crypto.randomBytes` and `Date.now`: these are parameters. Two preconditions
  stand for what randomness gives in practice: the new record id is unused
  (`Vault.Upload`), and the drawn share token is held by no record
  (`Vault.Share`).
- `Files.Vault.Upload`: `path.join('uploads', name)` is modelled as
  `uploads/` + name, under the precondition that the original name contains no
  `/`. multer supplies only the base name of the upload. Path normalisation of
  other names is not modelled.
- `Auth.Authenticate`: the JWT signature check and the secret are the abstract
  `verify` parameter. Claims are assumed to carry `user`. Tokens whose payload
  lacks it are not modelled.
- Record id casting: a record id in the request that is not a valid database
  id makes `findById` throw (routes/files.js:77, :159 and :200), ending in the
  500 reply. The model answers 404 for such an id in `Vault.Download`,
  `Vault.Share` and `Vault.Delete`, because the id is not in the store. That
  500 reply and every other 500 catch-all path are not modelled, and neither is
  a request without a file (also a 500).
- A failed validation on upload is modelled as "no record, no reply". The
  unhandled rejection it raises in the process is not modelled.
- Stored locations are not unique. The ciphertext file is named from the
  millisecond and the original name only. Two uploads of one name in the same
  millisecond, even by different users, share a location, as
  `Files.SameInstantSamePath` and `Walkthrough.CollidingUploads` show. On disk the
  second write then replaces the first ciphertext, and deleting either record
  removes the other's file. The model keeps no file-system state, so it records
  the shared `path` but not the overwrite or the unlink.
- Console logging, routes/auth.js (signup and login over bcrypt and JWT signing)
  and index.js (bootstrap, CORS, static serving, listening) are not part of this
  model.
