/**
 * The persisted file record: the fields of the file schema, which of them are
 * required, and the defaults the schema fills in when a record is built.
 */
module FileModel {
  import opened Wrappers

  /**
   * The owner reference. The schema types it as an ObjectId; it is modelled by
   * its string form (`toString()`), and the routes compare that with the `id`
   * claim of the caller's token, which login and signup fill with the same
   * string.
   */
  type UserId = string

  /** A `Date`, as milliseconds since the epoch. */
  type Time = nat

  datatype FileRecord = FileRecord(
    user: UserId,
    originalName: string,
    encryptedName: string,
    path: string,
    size: nat,
    encryptionKey: string,
    iv: string,
    shareToken: Option<string>,
    shareLinkExpires: Option<Time>,
    createdAt: Time)

  /** The share fields are both null: no link has been issued. */
  predicate NotShared(r: FileRecord)
  {
    r.shareToken.None? && r.shareLinkExpires.None?
  }

  /** A token is stored exactly when an expiry is stored. */
  predicate ShareConsistent(r: FileRecord)
  {
    r.shareToken.Some? <==> r.shareLinkExpires.Some?
  }

  /**
   * The schema's `required` validator as it is applied on save: every required
   * String field must hold a non-empty string, and the required `user` must be
   * present, which for its string form means non-empty (the required Number
   * `size` is always present in this model).
   */
  predicate Conforms(r: FileRecord)
  {
    && r.user != ""
    && r.originalName != ""
    && r.encryptedName != ""
    && r.path != ""
    && r.encryptionKey != ""
    && r.iv != ""
  }

  /**
   * Building a document from the seven required fields: `shareToken` and
   * `shareLinkExpires` default to null and `createdAt` to the current time.
   */
  function NewFile(user: UserId, originalName: string, encryptedName: string, path: string,
                   size: nat, encryptionKey: string, iv: string, now: Time): (r: FileRecord)
    ensures NotShared(r) && ShareConsistent(r)
    ensures r.createdAt == now
    ensures r.user == user && r.originalName == originalName && r.size == size
    ensures r.encryptedName == encryptedName && r.path == path
    ensures r.encryptionKey == encryptionKey && r.iv == iv
    ensures Conforms(r) <==>
      user != "" && originalName != "" && encryptedName != "" && path != ""
      && encryptionKey != "" && iv != ""
  {
    FileRecord(user, originalName, encryptedName, path, size, encryptionKey, iv, None, None, now)
  }
}
