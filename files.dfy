/**
 * The file routes: upload, list, owner download, shared-link download, share
 * and delete, as methods of a `Vault` that holds the record store. The cipher,
 * the streams and the file system stay abstract: a served download is described
 * by the decryption it would stream (ciphertext location, key and IV), and the
 * random draws and clock readings come in as parameters.
 */
module Files {
  import opened Wrappers
  import opened Text
  import opened FileModel

  /** A record's `_id`, as its string form. */
  type FileId = string

  const UploadDir := "uploads"
  /** Bytes drawn for the AES-256 key, the CBC IV and a share token. */
  const KeyLength: nat := 32
  const IvLength: nat := 16
  const TokenLength: nat := 32
  /** A share link lives 24 hours, in milliseconds. */
  const ShareLifetime: nat := 24 * 60 * 60 * 1000
  const DefaultFrontend := "https://smart-file-vault-frontend.onrender.com"

  const NotFoundMsg := "File not found"
  const NotAuthorizedMsg := "Not authorized"
  const LinkNotFoundMsg := "File not found or invalid link"
  const LinkExpiredMsg := "Link has expired"
  const MissingOnServerMsg := "File not found on server"
  const DeletedMsg := "File deleted successfully"
  const UploadedMsg := "File uploaded and encrypted successfully"

  // ---------------------------------------------------------------------
  // replies

  /** The decipher pipeline a download streams: ciphertext file, key and IV. */
  datatype Decryption = Decryption(path: string, key: string, iv: string)

  datatype Reply =
    | Message(status: nat, msg: string)                    // `res.status(s).json({ msg })`
    | Uploaded(status: nat, msg: string, id: FileId, file: FileRecord) // 201, the record with its `_id`
    | Served(contentDisposition: string, body: Decryption) // 200, decrypted stream
    | ShareLink(shareUrl: string)                          // 200 `{ shareUrl }`
    | NoReply                                              // nothing is sent

  function ContentDisposition(name: string): string
  {
    "attachment; filename=\"" + name + "\""
  }

  /** The successful download of a record: an attachment named after the upload. */
  function Serve(r: FileRecord): (reply: Reply)
    ensures reply.Served? && reply.body == Decryption(r.path, r.encryptionKey, r.iv)
    ensures StartsWith(reply.contentDisposition, "attachment; filename=\"")
    ensures reply.contentDisposition[|"attachment; filename=\""|..] == r.originalName + "\""
  {
    Served(ContentDisposition(r.originalName), Decryption(r.path, r.encryptionKey, r.iv))
  }

  // ---------------------------------------------------------------------
  // the stored name of an upload

  /** `${Date.now()}-${originalname}.enc` */
  function StoredName(now: Time, originalName: string): string
  {
    DecimalString(now) + "-" + originalName + ".enc"
  }

  /** `path.join('uploads', name)` for a name that is a single path segment. */
  function UploadPath(name: string): string
  {
    UploadDir + "/" + name
  }

  /** For a single-segment name the location has exactly two segments: the
      upload directory and the stored name. */
  lemma UploadPathSegments(name: string)
    requires '/' !in name
    ensures Split(UploadPath(name), '/') == [UploadDir, name]
  {
    assert UploadPath(name) == UploadDir + ['/'] + name;
    SplitAfterHead(UploadDir, '/', name);
    CountAbsent(name, '/');
    SplitFirst(name, '/');
    var whole := TakeUntil(name, '/');
    assert whole == name[..|name|] == name;
    assert |Split(name, '/')| == 1;
    assert Split(UploadPath(name), '/') == [UploadDir] + Split(name, '/');
  }

  /** The stored name embeds the timestamp and the original name recoverably:
      two uploads with the same stored name had the same instant and name. */
  lemma StoredNameInjective(t1: Time, o1: string, t2: Time, o2: string)
    requires StoredName(t1, o1) == StoredName(t2, o2)
    ensures t1 == t2 && o1 == o2
  {
    var d1, d2 := DecimalString(t1), DecimalString(t2);
    var r1, r2 := o1 + ".enc", o2 + ".enc";
    assert StoredName(t1, o1) == d1 + ['-'] + r1;
    assert StoredName(t2, o2) == d2 + ['-'] + r2;
    assert '-' !in d1 by { assert forall i :: 0 <= i < |d1| ==> d1[i] != '-'; }
    assert '-' !in d2 by { assert forall i :: 0 <= i < |d2| ==> d2[i] != '-'; }
    SameHeadSameTail(d1, r1, d2, r2, '-');
    DecimalStringInjective(t1, t2);
    assert o1 == r1[..|o1|] && o2 == r2[..|o2|];
  }

  // ---------------------------------------------------------------------
  // record construction on upload

  /**
   * The record the upload handler saves once the ciphertext is written: owner
   * from the caller, name and size as uploaded, the stored name and location,
   * and the key and IV as hex; share fields null, creation time `saveTime`.
   */
  function UploadRecord(caller: UserId, originalName: string, size: nat, nameTime: Time,
                        saveTime: Time, key: seq<byte>, iv: seq<byte>): (r: FileRecord)
    requires |key| == KeyLength && |iv| == IvLength
    ensures r.user == caller && r.originalName == originalName && r.size == size
    ensures r.encryptedName == StoredName(nameTime, originalName)
    ensures r.path == UploadPath(r.encryptedName)
    ensures |r.encryptionKey| == 64 && IsHex(r.encryptionKey) && UnHex(r.encryptionKey) == key
    ensures |r.iv| == 32 && IsHex(r.iv) && UnHex(r.iv) == iv
    ensures NotShared(r) && r.createdAt == saveTime
    ensures Conforms(r) <==> caller != "" && originalName != ""
  {
    UnHexHex(key);
    UnHexHex(iv);
    var encryptedFileName := StoredName(nameTime, originalName);
    NewFile(caller, originalName, encryptedFileName, UploadPath(encryptedFileName),
            size, Hex(key), Hex(iv), saveTime)
  }

  /**
   * The stored location depends only on the clock reading and the original
   * name: two uploads of one name in the same millisecond, by any two callers,
   * get the same ciphertext file, and the store invariant does not exclude it.
   */
  lemma SameInstantSamePath(caller1: UserId, caller2: UserId, originalName: string, nameTime: Time,
                            size1: nat, size2: nat, saveTime1: Time, saveTime2: Time,
                            key1: seq<byte>, iv1: seq<byte>, key2: seq<byte>, iv2: seq<byte>)
    requires |key1| == KeyLength && |iv1| == IvLength && |key2| == KeyLength && |iv2| == IvLength
    ensures var r1 := UploadRecord(caller1, originalName, size1, nameTime, saveTime1, key1, iv1);
      var r2 := UploadRecord(caller2, originalName, size2, nameTime, saveTime2, key2, iv2);
      && r1.path == r2.path
      && (caller1 != "" && caller2 != "" && originalName != "" ==> WellFormed(r1) && WellFormed(r2))
  {
  }

  // ---------------------------------------------------------------------
  // listing

  /** A record as the list route returns it: everything but `encryptionKey` and `iv`. */
  datatype Listing = Listing(
    user: UserId,
    originalName: string,
    encryptedName: string,
    path: string,
    size: nat,
    shareToken: Option<string>,
    shareLinkExpires: Option<Time>,
    createdAt: Time)

  /** The projection `.select('-encryptionKey -iv')`. */
  function Strip(r: FileRecord): Listing
  {
    Listing(r.user, r.originalName, r.encryptedName, r.path, r.size,
            r.shareToken, r.shareLinkExpires, r.createdAt)
  }

  /** The projection drops exactly the key and the IV: records that differ only
      there list alike, and records that list alike differ only there. */
  lemma StripDropsOnlySecrets(a: FileRecord, b: FileRecord)
    ensures Strip(a) == Strip(b) <==> a.(encryptionKey := b.encryptionKey, iv := b.iv) == b
  {
  }

  // ---------------------------------------------------------------------
  // the owner gate shared by download, share and delete

  datatype Access = Missing | Foreign | Granted(file: FileRecord)

  /** Look the id up, then compare owners: a missing record is reported before
      ownership is considered, and access is granted to the owner only. */
  function Authorize(files: map<FileId, FileRecord>, id: FileId, caller: UserId): (a: Access)
    ensures a.Missing? <==> id !in files
    ensures a.Foreign? <==> id in files && files[id].user != caller
    ensures a.Granted? <==> id in files && files[id].user == caller
    ensures a.Granted? ==> a.file == files[id]
  {
    if id !in files then Missing
    else if files[id].user != caller then Foreign
    else Granted(files[id])
  }

  /** The two error replies of the gate. */
  function Refusal(a: Access): (reply: Reply)
    requires !a.Granted?
    ensures a.Missing? ==> reply == Message(404, NotFoundMsg)
    ensures a.Foreign? ==> reply == Message(401, NotAuthorizedMsg)
  {
    if a.Missing? then Message(404, NotFoundMsg) else Message(401, NotAuthorizedMsg)
  }

  // ---------------------------------------------------------------------
  // share links

  /** `new Date() > file.shareLinkExpires`; a null expiry compares as 0. */
  predicate Expired(now: Time, expires: Option<Time>)
  {
    now > (if expires.Some? then expires.value else 0)
  }

  /** A link is served up to and including its expiry instant. */
  lemma ServedUntilExpiry(issued: Time, now: Time)
    ensures !Expired(now, Some(issued + ShareLifetime)) <==> now <= issued + 86400000
  {
  }

  /** `process.env.FRONTEND_URL || default`: an unset or empty variable selects the default. */
  function FrontendBase(env: Option<string>): string
  {
    if env.Some? && env.value != "" then env.value else DefaultFrontend
  }

  /** The link base is never empty: the setting when it is non-empty, else the default. */
  lemma FrontendBaseChoice(env: Option<string>)
    ensures FrontendBase(env) != ""
    ensures env.Some? && env.value != "" ==> FrontendBase(env) == env.value
    ensures env.None? || env.value == "" ==> FrontendBase(env) == DefaultFrontend
  {
  }

  function ShareUrl(env: Option<string>, token: string): string
  {
    FrontendBase(env) + "/shared/" + token
  }

  /** The link starts with the frontend base and ends in `/shared/` and the
      token, so the token can be read off it. */
  lemma ShareUrlCarriesToken(env: Option<string>, token: string)
    ensures var url := ShareUrl(env, token);
      && StartsWith(url, FrontendBase(env))
      && |url| >= |token| + 8
      && url[|url| - |token|..] == token
      && url[|url| - |token| - 8..|url| - |token|] == "/shared/"
  {
  }

  /** The records whose current token is `token`. */
  function TokenHolders(files: map<FileId, FileRecord>, token: string): set<FileId>
  {
    set id | id in files && files[id].shareToken == Some(token)
  }

  // ---------------------------------------------------------------------
  // store invariant

  /** What every stored record satisfies: the schema, the share-field pairing,
      hex key and IV of the drawn lengths, a 64-hex-digit token when shared,
      and a location under the upload directory named after the stored name. */
  predicate WellFormed(r: FileRecord)
  {
    && Conforms(r)
    && ShareConsistent(r)
    && |r.encryptionKey| == 2 * KeyLength && IsHex(r.encryptionKey)
    && |r.iv| == 2 * IvLength && IsHex(r.iv)
    && (r.shareToken.Some? ==> |r.shareToken.value| == 2 * TokenLength && IsHex(r.shareToken.value))
    && r.path == UploadPath(r.encryptedName)
  }

  /** No two records hold the same token. */
  predicate UniqueTokens(files: map<FileId, FileRecord>)
  {
    forall a, b ::
      (a in files && b in files && files[a].shareToken.Some? && files[a].shareToken == files[b].shareToken)
      ==> a == b
  }

  class Vault {
    var files: map<FileId, FileRecord>

    ghost predicate Valid()
      reads this
    {
      (forall id :: id in files ==> WellFormed(files[id])) && UniqueTokens(files)
    }

    constructor ()
      ensures Valid() && files == map[]
    {
      files := map[];
    }

    /**
     * POST /upload, for an authenticated caller. `nameTime` is the clock read
     * that names the ciphertext file, `saveTime` the one the `createdAt` default
     * reads when the write has finished; `key`, `iv` and `id` are the random
     * key, the random IV and the id the store assigns. The record is saved only
     * when the ciphertext write has finished (`writeFinished`) and then only if
     * it passes the schema's validation; otherwise nothing is stored or sent.
     */
    method Upload(caller: UserId, originalName: string, size: nat, nameTime: Time, saveTime: Time,
                  key: seq<byte>, iv: seq<byte>, id: FileId, writeFinished: bool)
      returns (reply: Reply)
      requires Valid()
      requires |key| == KeyLength && |iv| == IvLength
      requires '/' !in originalName
      requires id !in files
      modifies this
      ensures Valid()
      ensures var rec := UploadRecord(caller, originalName, size, nameTime, saveTime, key, iv);
        if writeFinished && caller != "" && originalName != "" then
          && files == old(files)[id := rec]
          && reply == Uploaded(201, UploadedMsg, id, rec)
          && Authorize(files, id, caller) == Granted(rec)
          && id in List(caller) && List(caller)[id] == Strip(rec)
        else
          files == old(files) && reply == NoReply
    {
      var newFile := UploadRecord(caller, originalName, size, nameTime, saveTime, key, iv);
      if !writeFinished {
        // the 'finish' handler never runs
        return NoReply;
      }
      if !Conforms(newFile) {
        // save() rejects inside the handler and no reply is sent
        return NoReply;
      }
      files := files[id := newFile];
      reply := Uploaded(201, UploadedMsg, id, newFile);
    }

    /** GET /: the caller's records, without key and IV. */
    function List(caller: UserId): (listing: map<FileId, Listing>)
      reads this
      ensures forall id :: id in listing <==> id in files && files[id].user == caller
      ensures forall id :: id in listing ==> listing[id] == Strip(files[id])
    {
      map id | id in files && files[id].user == caller :: Strip(files[id])
    }

    /** GET /download/:id: 404 for an unknown id, 401 for another owner's
        record, otherwise the decrypted file as an attachment. */
    method Download(id: FileId, caller: UserId) returns (reply: Reply)
      ensures id !in files ==> reply == Message(404, NotFoundMsg)
      ensures id in files && files[id].user != caller ==> reply == Message(401, NotAuthorizedMsg)
      ensures id in files && files[id].user == caller ==> reply == Serve(files[id])
    {
      var access := Authorize(files, id, caller);
      if !access.Granted? {
        return Refusal(access);
      }
      reply := Serve(access.file);
    }

    /**
     * GET /download/shared/:token, without authentication. `now` is the clock
     * and `onDisk` the ciphertext files present. 404 when no record holds the
     * token; otherwise 410 once `now` is past the expiry, 404 when the
     * ciphertext is missing, else the decrypted file.
     */
    method SharedDownload(token: string, now: Time, onDisk: set<string>) returns (reply: Reply)
      requires Valid()
      ensures TokenHolders(files, token) == {} ==> reply == Message(404, LinkNotFoundMsg)
      ensures forall id :: id in files && files[id].shareToken == Some(token) ==>
        reply == (if Expired(now, files[id].shareLinkExpires) then Message(410, LinkExpiredMsg)
                  else if files[id].path !in onDisk then Message(404, MissingOnServerMsg)
                  else Serve(files[id]))
    {
      var holders := TokenHolders(files, token);
      assert forall id :: id in files && files[id].shareToken == Some(token) ==> id in holders;
      if holders == {} {
        return Message(404, LinkNotFoundMsg);
      }
      var id :| id in holders;
      var file := files[id];
      if Expired(now, file.shareLinkExpires) {
        return Message(410, LinkExpiredMsg);
      }
      if file.path !in onDisk {
        return Message(404, MissingOnServerMsg);
      }
      reply := Serve(file);
    }

    /**
     * POST /share/:id. After the gate, the owner's record gets the hex of the
     * drawn `tokenBytes` as its token and `now` + 24 h as its expiry; the reply
     * is the public link. `frontendUrl` is the FRONTEND_URL setting. The drawn
     * token is assumed unused, as 32 random bytes are in practice.
     */
    method Share(id: FileId, caller: UserId, now: Time, tokenBytes: seq<byte>, frontendUrl: Option<string>)
      returns (reply: Reply)
      requires Valid()
      requires |tokenBytes| == TokenLength
      requires TokenHolders(files, Hex(tokenBytes)) == {}
      modifies this
      ensures Valid()
      ensures id !in old(files) ==> reply == Message(404, NotFoundMsg) && files == old(files)
      ensures id in old(files) && old(files)[id].user != caller ==>
        reply == Message(401, NotAuthorizedMsg) && files == old(files)
      ensures id in old(files) && old(files)[id].user == caller ==>
        var token := Hex(tokenBytes);
        var was := old(files)[id];
        && files == old(files)[id := was.(shareToken := Some(token), shareLinkExpires := Some(now + ShareLifetime))]
        && reply == ShareLink(ShareUrl(frontendUrl, token))
        && |token| == 64
        && TokenHolders(files, token) == {id}
        && (was.shareToken.Some? ==> TokenHolders(files, was.shareToken.value) == {})
    {
      var access := Authorize(files, id, caller);
      if !access.Granted? {
        return Refusal(access);
      }
      var shareToken := Hex(tokenBytes);
      var shareLinkExpires := now + ShareLifetime;
      var file := access.file;
      ghost var before := files;
      ghost var previous := file.shareToken;
      assert id !in TokenHolders(before, shareToken);
      assert previous != Some(shareToken);
      file := file.(shareToken := Some(shareToken), shareLinkExpires := Some(shareLinkExpires));
      files := files[id := file];
      reply := ShareLink(ShareUrl(frontendUrl, shareToken));

      forall other | other in files && other != id
        ensures files[other] == before[other]
        ensures files[other].shareToken != Some(shareToken)
      {
        assert other !in TokenHolders(before, shareToken);
      }
      assert TokenHolders(files, shareToken) == {id};
      if previous.Some? {
        assert TokenHolders(files, previous.value) == {};
      }
    }

    /**
     * DELETE /:id. After the gate, the owner's record is removed; removing the
     * ciphertext file is started but its outcome does not affect the reply.
     */
    method Delete(id: FileId, caller: UserId) returns (reply: Reply)
      requires Valid()
      modifies this
      ensures Valid()
      ensures id !in old(files) ==> reply == Message(404, NotFoundMsg) && files == old(files)
      ensures id in old(files) && old(files)[id].user != caller ==>
        reply == Message(401, NotAuthorizedMsg) && files == old(files)
      ensures id in old(files) && old(files)[id].user == caller ==>
        && files == old(files) - {id}
        && reply == Message(200, DeletedMsg)
        && (forall c :: Authorize(files, id, c) == Missing)
        && (forall c :: id !in List(c))
    {
      var access := Authorize(files, id, caller);
      if !access.Granted? {
        return Refusal(access);
      }
      files := files - {id};
      reply := Message(200, DeletedMsg);
    }
  }
}
