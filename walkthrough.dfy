/**
 * A client of the vault: one owner uploads a report and lists it, a second
 * user is refused the download, the owner shares it, and the link works until
 * it has expired. Every step follows from the contracts of the routes alone.
 */
module Walkthrough {
  import opened Wrappers
  import opened Text
  import opened FileModel
  import opened Files

  method ReportScenario(t0: Time, key: seq<byte>, iv: seq<byte>, tokenBytes: seq<byte>)
    requires |key| == KeyLength && |iv| == IvLength && |tokenBytes| == TokenLength
  {
    var vault := new Vault();
    var up := vault.Upload("alice", "report.pdf", 10485760, t0, t0, key, iv, "f1", true);
    assert up.Uploaded? && up.status == 201 && up.id == "f1" && up.file.size == 10485760;
    var rec := up.file;

    var listing := vault.List("alice");
    assert "f1" in listing && listing["f1"] == Strip(rec);
    assert vault.List("bob") == map[];

    var foreign := vault.Download("f1", "bob");
    assert foreign == Message(401, NotAuthorizedMsg);
    var own := vault.Download("f1", "alice");
    assert own == Serve(rec);

    assert TokenHolders(vault.files, Hex(tokenBytes)) == {};
    var link := vault.Share("f1", "alice", t0, tokenBytes, None);
    var token := Hex(tokenBytes);
    assert link == ShareLink(DefaultFrontend + "/shared/" + token) && |token| == 64;
    var shared := vault.files["f1"];

    var early := vault.SharedDownload(token, t0 + ShareLifetime, {shared.path});
    assert early == Serve(shared);
    var late := vault.SharedDownload(token, t0 + ShareLifetime + 1, {shared.path});
    assert late == Message(410, LinkExpiredMsg);
    var unknown := vault.SharedDownload("nope", t0, {shared.path});
    assert unknown == Message(404, LinkNotFoundMsg);

    var gone := vault.Delete("f1", "alice");
    assert gone == Message(200, DeletedMsg);
    var after := vault.Download("f1", "alice");
    assert after == Message(404, NotFoundMsg);
  }

  /** Two callers upload the same name in the same millisecond: both records
      are kept, under different ids, and they name one ciphertext file. */
  method CollidingUploads(t: Time, key1: seq<byte>, iv1: seq<byte>, key2: seq<byte>, iv2: seq<byte>)
    requires |key1| == KeyLength && |iv1| == IvLength && |key2| == KeyLength && |iv2| == IvLength
  {
    var vault := new Vault();
    var a := vault.Upload("alice", "r.pdf", 10, t, t, key1, iv1, "a", true);
    var b := vault.Upload("bob", "r.pdf", 20, t, t + 5, key2, iv2, "b", true);
    assert vault.Valid();
    assert "a" in vault.files && "b" in vault.files;
    assert vault.files["a"].path == vault.files["b"].path;
  }
}
