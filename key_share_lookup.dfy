/**
 * The read-only helpers the parrot tests use to pull key-share bytes out of
 * a ClientHello's extension list, and the slicing that takes the classical
 * X25519 half out of a hybrid X25519MLKEM768 share.
 */
module KeyShareLookup {
  import opened Wrappers
  import opened TlsTypes

  /** The failures the tests report with `t.Fatal`/`t.Fatalf`. */
  datatype LookupError =
    | KeyShareExtensionNotFound
    | KeyShareNotFound(group: CurveID)
    | HybridKeyShareTooShort(length: nat)

  /** `i` is the position of the first key_share extension in `exts`. */
  ghost predicate IsFirstKeyShareExt(exts: seq<TLSExtension>, i: int)
  {
    0 <= i < |exts| && exts[i].KeyShareExt? &&
    forall j :: 0 <= j < i ==> !exts[j].KeyShareExt?
  }

  /** `i` is the position of the first entry of `shares` for `group`. */
  ghost predicate IsFirstShareFor(shares: seq<KeyShare>, group: CurveID, i: int)
  {
    0 <= i < |shares| && shares[i].group == group &&
    forall j :: 0 <= j < i ==> shares[j].group != group
  }

  /**
   * The first key_share extension of the list, in list order; fails exactly
   * when the list holds none.
   */
  function FindKeyShareExtension(exts: seq<TLSExtension>): (r: Result<KeyShareExtension, LookupError>)
    ensures r.Err? <==> forall i :: 0 <= i < |exts| ==> !exts[i].KeyShareExt?
    ensures r.Err? ==> r.error == KeyShareExtensionNotFound
    ensures r.Ok? ==> exists i :: IsFirstKeyShareExt(exts, i) && exts[i] == r.value
  {
    if |exts| == 0 then
      Err(KeyShareExtensionNotFound)
    else if exts[0].KeyShareExt? then
      assert IsFirstKeyShareExt(exts, 0);
      Ok(exts[0])
    else
      var r := FindKeyShareExtension(exts[1..]);
      assert r.Ok? ==> exists i :: IsFirstKeyShareExt(exts, i) && exts[i] == r.value by {
        if r.Ok? {
          var i :| IsFirstKeyShareExt(exts[1..], i) && exts[1..][i] == r.value;
          assert IsFirstKeyShareExt(exts, i + 1);
        }
      }
      r
  }

  /**
   * The key_exchange bytes of the first entry of the extension for `group`;
   * fails exactly when no entry names that group.
   */
  function FindKeyShareData(ext: KeyShareExtension, group: CurveID): (r: Result<seq<byte>, LookupError>)
    ensures r.Err? <==> forall i :: 0 <= i < |ext.keyShares| ==> ext.keyShares[i].group != group
    ensures r.Err? ==> r.error == KeyShareNotFound(group)
    ensures r.Ok? ==> exists i :: IsFirstShareFor(ext.keyShares, group, i) && ext.keyShares[i].data == r.value
    decreases |ext.keyShares|
  {
    var shares := ext.keyShares;
    if |shares| == 0 then
      Err(KeyShareNotFound(group))
    else if shares[0].group == group then
      assert IsFirstShareFor(shares, group, 0);
      Ok(shares[0].data)
    else
      var r := FindKeyShareData(KeyShareExt(shares[1..]), group);
      assert r.Ok? ==> exists i :: IsFirstShareFor(shares, group, i) && shares[i].data == r.value by {
        if r.Ok? {
          var i :| IsFirstShareFor(shares[1..], group, i) && shares[1..][i].data == r.value;
          assert IsFirstShareFor(shares, group, i + 1);
        }
      }
      r
  }

  /**
   * The classical part of a hybrid share: its last `X25519PublicKeySize`
   * bytes. A share shorter than that is rejected.
   */
  function HybridClassicalPart(hybridData: seq<byte>): (r: Result<seq<byte>, LookupError>)
    ensures r.Ok? <==> |hybridData| >= X25519PublicKeySize
    ensures r.Err? ==> r.error == HybridKeyShareTooShort(|hybridData|)
    ensures r.Ok? ==> |r.value| == X25519PublicKeySize
    ensures r.Ok? ==> hybridData[..|hybridData| - X25519PublicKeySize] + r.value == hybridData
  {
    if |hybridData| < X25519PublicKeySize then
      Err(HybridKeyShareTooShort(|hybridData|))
    else
      Ok(hybridData[|hybridData| - X25519PublicKeySize..])
  }

  /**
   * `i` is the first key_share extension of `exts`, and `j` and `k` are the
   * first entries in it for X25519MLKEM768 and for X25519.
   */
  ghost predicate LocatesShares(exts: seq<TLSExtension>, i: int, j: int, k: int)
  {
    IsFirstKeyShareExt(exts, i) &&
    IsFirstShareFor(exts[i].keyShares, X25519MLKEM768, j) &&
    IsFirstShareFor(exts[i].keyShares, X25519, k)
  }

  /** Three successful lookups name the first extension and its first entries. */
  lemma LookupsLocateShares(exts: seq<TLSExtension>, ext: KeyShareExtension, hybridData: seq<byte>, classicalData: seq<byte>)
    requires FindKeyShareExtension(exts) == Ok(ext)
    requires FindKeyShareData(ext, X25519MLKEM768) == Ok(hybridData)
    requires FindKeyShareData(ext, X25519) == Ok(classicalData)
    ensures exists i, j, k :: LocatesShares(exts, i, j, k) &&
              exts[i].keyShares[j].data == hybridData && exts[i].keyShares[k].data == classicalData
  {
    var i :| IsFirstKeyShareExt(exts, i) && exts[i] == ext;
    var j :| IsFirstShareFor(ext.keyShares, X25519MLKEM768, j) && ext.keyShares[j].data == hybridData;
    var k :| IsFirstShareFor(ext.keyShares, X25519, k) && ext.keyShares[k].data == classicalData;
    assert LocatesShares(exts, i, j, k);
  }

  /**
   * Whether the classical part of the X25519MLKEM768 share equals the X25519
   * share, both taken from the first key_share extension. It succeeds exactly
   * when all three lookups succeed and the hybrid share is long enough, and
   * each failure is reported as the test reports it.
   */
  function HybridClassicalPartMatches(exts: seq<TLSExtension>): (r: Result<bool, LookupError>)
    ensures r.Ok? <==>
      exists i, j, k ::
        LocatesShares(exts, i, j, k) && |exts[i].keyShares[j].data| >= X25519PublicKeySize
    ensures forall i, j, k ::
      r.Ok? && LocatesShares(exts, i, j, k) ==>
        var h, c := exts[i].keyShares[j].data, exts[i].keyShares[k].data;
        r.value == (h[|h| - X25519PublicKeySize..] == c)
    ensures r == Err(KeyShareExtensionNotFound) <==> forall i :: 0 <= i < |exts| ==> !exts[i].KeyShareExt?
    ensures r == Err(KeyShareNotFound(X25519MLKEM768)) <==>
      exists i ::
        IsFirstKeyShareExt(exts, i) &&
        forall j :: 0 <= j < |exts[i].keyShares| ==> exts[i].keyShares[j].group != X25519MLKEM768
    ensures r == Err(KeyShareNotFound(X25519)) <==>
      exists i, j ::
        IsFirstKeyShareExt(exts, i) && IsFirstShareFor(exts[i].keyShares, X25519MLKEM768, j) &&
        forall k :: 0 <= k < |exts[i].keyShares| ==> exts[i].keyShares[k].group != X25519
    ensures r.Err? && r.error.HybridKeyShareTooShort? <==>
      exists i, j, k ::
        LocatesShares(exts, i, j, k) && |exts[i].keyShares[j].data| < X25519PublicKeySize
  {
    var ext :- FindKeyShareExtension(exts);
    var hybridData :- FindKeyShareData(ext, X25519MLKEM768);
    var classicalData :- FindKeyShareData(ext, X25519);
    LookupsLocateShares(exts, ext, hybridData, classicalData);
    var hybridClassicalPart :- HybridClassicalPart(hybridData);
    Ok(hybridClassicalPart == classicalData)
  }

  /** Extensions of other kinds ahead of the key_share extension are skipped. */
  lemma {:induction false} FindKeyShareExtensionSkipsOthers(others: seq<TLSExtension>, exts: seq<TLSExtension>)
    requires forall i :: 0 <= i < |others| ==> !others[i].KeyShareExt?
    ensures FindKeyShareExtension(others + exts) == FindKeyShareExtension(exts)
  {
    if |others| > 0 {
      var all := others + exts;
      assert all[0] == others[0] && !all[0].KeyShareExt?;
      assert all[1..] == others[1..] + exts;
      FindKeyShareExtensionSkipsOthers(others[1..], exts);
      assert FindKeyShareExtension(all) == FindKeyShareExtension(all[1..]);
    } else {
      assert others + exts == exts;
    }
  }

  /** Entries for other groups ahead of the wanted one are skipped. */
  lemma {:induction false} FindKeyShareDataSkipsOthers(others: seq<KeyShare>, shares: seq<KeyShare>, group: CurveID)
    requires forall i :: 0 <= i < |others| ==> others[i].group != group
    ensures FindKeyShareData(KeyShareExt(others + shares), group) == FindKeyShareData(KeyShareExt(shares), group)
  {
    if |others| > 0 {
      var all := others + shares;
      assert all[0] == others[0] && all[0].group != group;
      assert all[1..] == others[1..] + shares;
      FindKeyShareDataSkipsOthers(others[1..], shares, group);
      assert FindKeyShareData(KeyShareExt(all), group) == FindKeyShareData(KeyShareExt(all[1..]), group);
    } else {
      assert others + shares == shares;
    }
  }

  /**
   * Hybrid layout: the ML-KEM key comes first and the X25519 key last, so
   * the extraction gives back exactly the X25519 key that was appended.
   */
  lemma HybridClassicalPartOfConcat(mlkem: seq<byte>, classical: seq<byte>)
    requires |classical| == X25519PublicKeySize
    ensures HybridClassicalPart(mlkem + classical) == Ok(classical)
  {
  }

  /**
   * On an extension list shaped as in the tests (other extensions, then a
   * key_share extension listing the hybrid share before the X25519 share),
   * the check reports reuse exactly when the X25519 key appended to the
   * ML-KEM key equals the standalone X25519 share.
   */
  lemma {:induction false} HybridClassicalPartMatchesDecides(
    others: seq<TLSExtension>, rest: seq<TLSExtension>,
    mlkem: seq<byte>, classical: seq<byte>, standalone: seq<byte>)
    requires forall i :: 0 <= i < |others| ==> !others[i].KeyShareExt?
    requires |classical| == X25519PublicKeySize
    ensures HybridClassicalPartMatches(
              others + [KeyShareExt([KeyShare(X25519MLKEM768, mlkem + classical), KeyShare(X25519, standalone)])] + rest)
            == Ok(classical == standalone)
  {
    var ks := [KeyShare(X25519MLKEM768, mlkem + classical), KeyShare(X25519, standalone)];
    var ext := KeyShareExt(ks);
    assert others + [ext] + rest == others + ([ext] + rest);
    FindKeyShareExtensionSkipsOthers(others, [ext] + rest);
    FindKeyShareDataSkipsOthers(ks[..1], ks[1..], X25519);
    assert ks[..1] + ks[1..] == ks;
    HybridClassicalPartOfConcat(mlkem, classical);
  }
}
