/**
 * One request to the static content server, end to end: the asset is
 * looked up, the access rule is applied, and only then is the `Range`
 * header looked at.
 */
module ContentServer {
  import opened Wrappers
  import opened AccessGate
  import opened Responder

  /** What the asset store knows of an asset: its lock flag and its bytes. */
  datatype Asset = Asset(locked: bool, content: seq<byte>)

  const NotFound: nat := 404

  /**
   * The response to `requester` asking for `asset` (None when the store has
   * no such asset) with the optional `Range` header. A missing asset is 404
   * and a refused requester 403, both without a body and before any range
   * is parsed; every other request is answered as `Respond` decides.
   */
  function Serve(requester: Requester, asset: Option<Asset>, range: Option<string>): (r: Response)
    ensures asset.None? ==> r.status == 404 && r.body == []
    ensures asset.Some? && Decide(requester, asset.value.locked) == Deny ==>
              r.status == 403 && r.body == [] && r.contentRange.None?
    ensures asset.Some? && Decide(requester, asset.value.locked) == Allow ==>
              r == Respond(range, asset.value.content)
  {
    match asset
    case None => Response(NotFound, None, None, false, [])
    case Some(a) =>
      match Decide(requester, a.locked)
      case Deny => Response(Forbidden, None, None, false, [])
      case Allow => Respond(range, a.content)
  }

  /** A refusal does not depend on the `Range` header: no range is parsed for it. */
  lemma {:induction false} DenialIgnoresRange(requester: Requester, asset: Asset, h1: Option<string>, h2: Option<string>)
    requires Decide(requester, asset.locked) == Deny
    ensures Serve(requester, Some(asset), h1) == Serve(requester, Some(asset), h2)
    ensures Serve(requester, Some(asset), h1).status == 403
  {
  }

  /** Every body sent is a contiguous slice of the asset, and `Content-Length`, when sent, is its size. */
  lemma {:induction false} BodyIsSliceOfAsset(requester: Requester, asset: Asset, range: Option<string>)
    ensures var r := Serve(requester, Some(asset), range);
            && (exists i, j :: 0 <= i <= j <= |asset.content| && r.body == asset.content[i..j])
            && (r.contentLength.Some? ==> r.contentLength.value == |r.body|)
  {
    var r := Serve(requester, Some(asset), range);
    if r.status == 206 {
      PartialIsSlice(range, asset.content);
      var first: nat, last: nat :|
        first <= last < |asset.content| && r.body == asset.content[first..last + 1];
    } else if r.status == 200 {
      assert r.body == asset.content[0..|asset.content|];
    } else {
      assert r.body == asset.content[0..0];
    }
  }
}
