/** Uploaded files: the per-user storage quota, the object key an upload is stored under,
    and the creation of asset records. The object store itself (credentials, `put_object`,
    `delete_object`, presigned URLs) is outside the model. */
module AssetSerializer {

  import opened Common
  import opened Records

  /** 500 MiB. */
  const MaxStorageBytes: nat := 500 * 1024 * 1024

  /** `get_user_total_storage`: the sizes of the user's assets added up, 0 when they have
      none. */
  function TotalStorage(assets: seq<Asset>, u: UserId): nat
  {
    if assets == [] then 0
    else
      var last := assets[|assets| - 1];
      TotalStorage(assets[..|assets| - 1], u) + (if last.owner == u then last.size else 0)
  }

  /** Every user's assets fit in the quota. */
  ghost predicate QuotaRespected(assets: seq<Asset>)
  {
    forall u: UserId :: TotalStorage(assets, u) <= MaxStorageBytes
  }

  /** The quota test: an upload is refused exactly when it would take the owner's usage
      past the limit; reaching the limit exactly is allowed. */
  function Admits(usage: nat, size: nat): (ok: bool)
    ensures ok <==> usage + size <= MaxStorageBytes
    ensures ok ==> size <= MaxStorageBytes
    ensures usage + size == MaxStorageBytes ==> ok
  {
    !(usage + size > MaxStorageBytes)
  }

  /** A new record adds its size to its owner's usage and nothing to anybody else's. */
  lemma TotalStorageAppend(assets: seq<Asset>, a: Asset, u: UserId)
    ensures TotalStorage(assets + [a], u) == TotalStorage(assets, u) + (if a.owner == u then a.size else 0)
  {
    assert (assets + [a])[..|assets|] == assets;
  }

  /** Removing a record gives its size back to its owner and changes nobody else's usage. */
  lemma {:induction false} TotalStorageRemove(assets: seq<Asset>, k: nat, u: UserId)
    requires k < |assets|
    ensures TotalStorage(assets[..k] + assets[k + 1..], u)
            == TotalStorage(assets, u) - (if assets[k].owner == u then assets[k].size else 0)
  {
    var front := assets[..|assets| - 1];
    if k == |assets| - 1 {
      assert assets[..k] + assets[k + 1..] == front;
    } else {
      var last := assets[|assets| - 1];
      TotalStorageRemove(front, k, u);
      var rest := assets[..k] + assets[k + 1..];
      assert rest == (front[..k] + front[k + 1..]) + [last];
      TotalStorageAppend(front[..k] + front[k + 1..], last, u);
    }
  }

  /** A letter, digit or underscore: the characters `\w` matches (ASCII only here). */
  predicate WordChar(c: char)
  {
    ('a' <= c <= 'z') || ('A' <= c <= 'Z') || ('0' <= c <= '9') || c == '_'
  }

  /** The part of a name before where `$` can match: the whole name, or all of it but a
      final line feed. */
  function Anchored(name: string): (t: string)
    ensures t == name || (name == t + ['\n'])
  {
    if |name| > 0 && name[|name| - 1] == '\n' then name[..|name| - 1] else name
  }

  /** The length of the longest run of word characters that ends `t`. */
  function WordTail(t: string): (n: nat)
    ensures n <= |t|
    ensures forall i | |t| - n <= i < |t| :: WordChar(t[i])
    ensures n < |t| ==> !WordChar(t[|t| - n - 1])
  {
    if t == [] || !WordChar(t[|t| - 1]) then 0 else 1 + WordTail(t[..|t| - 1])
  }

  /** The extension `upload_image` keeps: what `\.(\w+)$` matches in the original name
      (the dot included), or `.bin` when nothing matches. */
  function Extension(name: string): (ext: string)
    ensures ext == ".bin" || (|ext| >= 2 && ext[0] == '.' && forall i | 1 <= i < |ext| :: WordChar(ext[i]))
    ensures ext != ".bin" ==> exists stem :: Anchored(name) == stem + ext
  {
    var t := Anchored(name);
    var n := WordTail(t);
    if 0 < n < |t| && t[|t| - n - 1] == '.' then
      var ext := t[|t| - n - 1..];
      assert t == t[..|t| - n - 1] + ext;
      ext
    else ".bin"
  }

  lemma {:induction false} WordTailOf(stem: string, w: string)
    requires stem == [] || !WordChar(stem[|stem| - 1])
    requires forall i | 0 <= i < |w| :: WordChar(w[i])
    ensures WordTail(stem + w) == |w|
  {
    if w != [] {
      assert (stem + w)[..|stem + w| - 1] == stem + w[..|w| - 1];
      WordTailOf(stem, w[..|w| - 1]);
    }
  }

  /** When the anchored name ends in a dot and a word, that ending is the extension. */
  lemma {:induction false} ExtensionOfAnchored(name: string, stem: string, w: string)
    requires w != [] && forall i | 0 <= i < |w| :: WordChar(w[i])
    requires Anchored(name) == stem + "." + w
    ensures Extension(name) == "." + w
  {
    var t := stem + "." + w;
    assert t == (stem + ".") + w;
    WordTailOf(stem + ".", w);
    assert t[|t| - |w| - 1..] == "." + w;
  }

  /** A name ending in a dot and a word keeps that ending as its extension, also when a
      final line feed follows it. */
  lemma ExtensionOfName(stem: string, w: string)
    requires w != [] && forall i | 0 <= i < |w| :: WordChar(w[i])
    ensures Extension(stem + "." + w) == "." + w
    ensures Extension(stem + "." + w + "\n") == "." + w
  {
    var t := stem + "." + w;
    assert t[|t| - 1] == w[|w| - 1];
    assert Anchored(t) == t;
    ExtensionOfAnchored(t, stem, w);
    assert (t + "\n")[..|t|] == t;
    assert Anchored(t + "\n") == t;
    ExtensionOfAnchored(t + "\n", stem, w);
  }

  /** A name without a dot has no extension to keep. */
  lemma NoDotNoExtension(name: string)
    requires forall i | 0 <= i < |name| :: name[i] != '.'
    ensures Extension(name) == ".bin"
  {
    var t := Anchored(name);
    assert forall i | 0 <= i < |t| :: t[i] == name[i];
  }

  /** Python's `s[:8]`: the first eight characters, or all of a shorter string. */
  function Take8(s: string): (p: string)
    ensures |p| == if |s| < 8 then |s| else 8
    ensures p <= s
  {
    if |s| < 8 then s else s[..8]
  }

  /** The object key of an upload: the first eight characters of the hex digest of its
      content, then the extension of its original name. */
  function ObjectKey(hexdigest: string, name: string): (key: string)
    ensures Take8(hexdigest) <= key
    ensures key[|Take8(hexdigest)|..] == Extension(name)
  {
    Take8(hexdigest) + Extension(name)
  }

  /** The content type sent along: the guess from the file name, or
      `application/octet-stream` when there is none. */
  function ContentType(guess: Option<string>): (t: string)
    ensures guess.Some? && guess.value != "" ==> t == guess.value
    ensures t != ""
  {
    if guess.None? || guess.value == "" then "application/octet-stream" else guess.value
  }

  /** An uploaded file: its original name and its bytes. */
  datatype UploadedFile = UploadedFile(name: string, data: seq<byte>)

  datatype CreateError =
    | FileRequired                                    // 'A file must be uploaded'
    | OwnerRequired                                   // 'Owner is required'
    | StorageLimitExceeded(available: int, fileSize: nat)

  /** The asset table. */
  class AssetStore {
    var assets: seq<Asset>

    constructor()
      ensures assets == []
    {
      assets := [];
    }

    /** `AssetSerializer.create`: a missing file, then a missing owner, then the quota is
        checked, each before anything is stored; otherwise the file is stored under its
        object key and a record with that key and the file's size is added.
        `hexdigest` is the SHA-256 digest of the content, in hex. */
    method Create(file: Option<UploadedFile>, owner: Option<UserId>, canShare: bool, page: nat,
                  hexdigest: seq<byte> -> string)
      returns (r: Result<nat, CreateError>)
      modifies this
      ensures file.None? ==> r == Failure(FileRequired)
      ensures file.Some? && owner.None? ==> r == Failure(OwnerRequired)
      ensures file.Some? && owner.Some? ==>
                var usage := TotalStorage(old(assets), owner.value);
                var size := |file.value.data|;
                if Admits(usage, size) then r == Success(|old(assets)|)
                else r == Failure(StorageLimitExceeded(MaxStorageBytes - usage, size))
      ensures r.Failure? ==> assets == old(assets)
      ensures r.Success? ==> assets == old(assets) + [Asset(ObjectKey(hexdigest(file.value.data), file.value.name),
                                                             |file.value.data|, owner.value, canShare, page)]
      ensures QuotaRespected(old(assets)) ==> QuotaRespected(assets)
    {
      if file.None? {
        return Failure(FileRequired);
      }
      if owner.None? {
        return Failure(OwnerRequired);
      }
      var upload := file.value;
      var size := |upload.data|;
      var usage := TotalStorage(assets, owner.value);
      if !Admits(usage, size) {
        return Failure(StorageLimitExceeded(MaxStorageBytes - usage, size));
      }
      var key := ObjectKey(hexdigest(upload.data), upload.name);
      var a := Asset(key, size, owner.value, canShare, page);
      forall u: UserId ensures TotalStorage(assets + [a], u) == TotalStorage(assets, u) + (if a.owner == u then a.size else 0) {
        TotalStorageAppend(assets, a, u);
      }
      r := Success(|assets|);
      assets := assets + [a];
    }

    /** `delete_asset`: the record goes (its stored object is removed too, outside the
        model), and its size is given back to its owner's quota. */
    method Delete(k: nat)
      requires k < |assets|
      modifies this
      ensures assets == old(assets[..k] + assets[k + 1..])
      ensures forall u: UserId :: TotalStorage(assets, u)
                == TotalStorage(old(assets), u) - (if old(assets[k]).owner == u then old(assets[k]).size else 0)
      ensures QuotaRespected(old(assets)) ==> QuotaRespected(assets)
    {
      forall u: UserId ensures TotalStorage(assets[..k] + assets[k + 1..], u)
               == TotalStorage(assets, u) - (if assets[k].owner == u then assets[k].size else 0) {
        TotalStorageRemove(assets, k, u);
      }
      assets := assets[..k] + assets[k + 1..];
    }
  }

  /** The upload endpoint as written: the view saves with the requester as `uploaded_by`,
      but `create` looks for `owner`, which is read-only and never among the validated
      fields, so every upload that carries a file is refused as ownerless. */
  method UploadFileAsWritten(store: AssetStore, actor: UserId, file: Option<UploadedFile>, canShare: bool,
                         page: nat, hexdigest: seq<byte> -> string)
    returns (r: Result<nat, CreateError>)
    modifies store
    ensures file.Some? ==> r == Failure(OwnerRequired)
    ensures file.None? ==> r == Failure(FileRequired)
    ensures store.assets == old(store.assets)
  {
    r := store.Create(file, None, canShare, page, hexdigest);
  }

  /** The upload endpoint as intended: the requester is stamped as the owner, so a file is
      accepted exactly when it fits the requester's remaining quota. */
  method UploadFile(store: AssetStore, actor: UserId, file: Option<UploadedFile>, canShare: bool,
                page: nat, hexdigest: seq<byte> -> string)
    returns (r: Result<nat, CreateError>)
    modifies store
    ensures r.Success? <==> file.Some? && TotalStorage(old(store.assets), actor) + |file.value.data| <= MaxStorageBytes
    ensures r.Success? ==> |store.assets| == r.value + 1 && store.assets[..r.value] == old(store.assets)
    ensures r.Success? ==> store.assets[r.value].owner == actor && store.assets[r.value].size == |file.value.data|
    ensures r.Failure? ==> store.assets == old(store.assets)
    ensures QuotaRespected(old(store.assets)) ==> QuotaRespected(store.assets)
  {
    r := store.Create(file, Some(actor), canShare, page, hexdigest);
  }
}
