/**
 * What the content server answers for an asset it may serve, given the
 * optional `Range` header: the whole asset (200), one byte range of it
 * (206 Partial Content, RFC 7233 section 4.1, with the `Content-Range`
 * header of section 4.2), or 416 Range Not Satisfiable (section 4.4).
 * Everything the server will not honour — no header, a header it cannot
 * parse, a unit other than `bytes`, several ranges — is ignored, as
 * section 3.1 allows, and the whole asset is sent.
 */
module Responder {
  import opened Wrappers
  import opened Text
  import opened RangeHeader

  newtype byte = x: int | 0 <= x < 256

  /** Status line, the headers this server sets, and the body sent. */
  datatype Response = Response(
    status: nat,
    contentRange: Option<string>,
    contentLength: Option<nat>,
    acceptRanges: bool,
    body: seq<byte>)

  /** A range the resource can serve: inside it, and not backwards. */
  predicate Satisfiable(range: ByteRange, length: nat)
    ensures Satisfiable(range, length) ==> 1 <= range.last - range.first + 1 <= length
  {
    0 <= range.first <= range.last < length
  }

  /** `Content-Range` of a 206: `bytes {first}-{last}/{length}`, no extra whitespace. */
  function ContentRange(first: nat, last: nat, length: nat): (r: string)
    ensures |r| >= 6 && r[..6] == "bytes " && '*' !in r
  {
    FormatNatPlain(first);
    FormatNatPlain(last);
    FormatNatPlain(length);
    "bytes " + FormatNat(first) + "-" + FormatNat(last) + "/" + FormatNat(length)
  }

  /**
   * `Content-Range` of a 416: `bytes`, a space, a star, a slash and the
   * length. Its `*` tells it apart from every `Content-Range` of a 206.
   */
  function UnsatisfiedRange(length: nat): (r: string)
    ensures |r| >= 6 && r[..6] == "bytes " && '*' in r
  {
    var r := "bytes */" + FormatNat(length);
    assert r[6] == '*';
    r
  }

  /** What the server makes of the request's `Range` header. */
  datatype Plan = Whole | Part(first: nat, last: nat) | Unsatisfiable

  /**
   * The decision table: a header that is absent, unparsable, in another
   * unit or asking for several ranges is ignored; one range is served when
   * satisfiable and refused otherwise.
   */
  function PlanFor(header: Option<string>, length: nat): (p: Plan)
    ensures p.Part? ==> p.first <= p.last < length
  {
    if header.None? then Whole
    else
      match ParseRangeHeader(header.value, length)
      case Err(_) => Whole
      case Ok(rs) =>
        if rs.unit != "bytes" || |rs.ranges| > 1 then Whole
        else if Satisfiable(rs.ranges[0], length) then Part(rs.ranges[0].first, rs.ranges[0].last)
        else Unsatisfiable
  }

  /**
   * The response for `content` under the optional `Range` header. Its
   * `Content-Length`, when present, is the size of its body; a 200 carries
   * the whole content and no `Content-Range`; a 416 carries nothing.
   * (`PartialIsSlice` states what a 206 carries.)
   */
  function Respond(header: Option<string>, content: seq<byte>): (r: Response)
    ensures r.status == 200 || r.status == 206 || r.status == 416
    ensures r.contentLength.Some? <==> r.status != 416
    ensures r.contentLength.Some? ==> r.contentLength.value == |r.body|
    ensures r.acceptRanges <==> r.status != 416
    ensures r.status == 200 ==> r.body == content && r.contentRange.None?
    ensures r.status == 416 ==> r.body == [] && r.contentRange == Some(UnsatisfiedRange(|content|))
  {
    match PlanFor(header, |content|)
    case Whole =>
      Response(200, None, Some(|content|), true, content)
    case Part(first, last) =>
      Response(206, Some(ContentRange(first, last, |content|)), Some(last - first + 1), true,
               content[first..last + 1])
    case Unsatisfiable =>
      Response(416, Some(UnsatisfiedRange(|content|)), None, false, [])
  }

  // ------------------------------------------------------------ when each status is sent

  /** A 206 carries one in-bounds slice of the content, and its `Content-Range` names that slice. */
  lemma {:induction false} PartialIsSlice(header: Option<string>, content: seq<byte>)
    ensures var r := Respond(header, content);
            r.status == 206 ==>
              exists first: nat, last: nat :: first <= last < |content|
                && r.body == content[first..last + 1]
                && r.contentRange == Some(ContentRange(first, last, |content|))
  {
    var p := PlanFor(header, |content|);
    if p.Part? {
      assert Respond(header, content).body == content[p.first..p.last + 1];
    }
  }

  /**
   * A header that is absent, unparsable, in another unit than `bytes` or
   * asking for several ranges is ignored: 200, the whole content, its
   * length as `Content-Length`, and no `Content-Range`.
   */
  lemma {:induction false} RespondIgnored(header: Option<string>, content: seq<byte>)
    requires header.None?
             || ParseRangeHeader(header.value, |content|).Err?
             || ParseRangeHeader(header.value, |content|).value.unit != "bytes"
             || |ParseRangeHeader(header.value, |content|).value.ranges| > 1
    ensures Respond(header, content) == Response(200, None, Some(|content|), true, content)
  {
  }

  /**
   * One satisfiable `bytes` range is served: 206, exactly its bytes,
   * `Content-Length` `last - first + 1` and a `Content-Range` naming it.
   */
  lemma {:induction false} RespondPartial(header: string, content: seq<byte>, first: nat, last: nat)
    requires ParseRangeHeader(header, |content|) == Ok(RangeSet("bytes", [ByteRange(first, last)]))
    requires first <= last < |content|
    ensures Respond(Some(header), content)
            == Response(206, Some(ContentRange(first, last, |content|)), Some(last - first + 1), true,
                        content[first..last + 1])
  {
    assert PlanFor(Some(header), |content|) == Part(first, last);
  }

  /** One `bytes` range the content cannot satisfy is refused with 416, without a body. */
  lemma {:induction false} RespondRefused(header: string, content: seq<byte>, range: ByteRange)
    requires ParseRangeHeader(header, |content|) == Ok(RangeSet("bytes", [range]))
    requires !Satisfiable(range, |content|)
    ensures Respond(Some(header), content) == Response(416, Some(UnsatisfiedRange(|content|)), None, false, [])
  {
    assert PlanFor(Some(header), |content|) == Unsatisfiable;
  }

  // ------------------------------------------------------------ requests written out

  /** `bytes=first-last` inside the content: 206 with exactly those bytes. */
  lemma {:induction false} ServeClosedRange(first: nat, last: nat, content: seq<byte>)
    requires first <= last < |content|
    ensures Respond(Some(ClosedRangeText(first, last)), content)
            == Response(206, Some(ContentRange(first, last, |content|)), Some(last - first + 1), true,
                        content[first..last + 1])
  {
    var header := ClosedRangeText(first, last);
    assert ParseRangeHeader(header, |content|) == Ok(RangeSet("bytes", [ByteRange(first, last)])) by {
      ClosedHeader(first, last, |content|);
    }
    RespondPartial(header, content, first, last);
  }

  /** `bytes=first-last` backwards or past the end: 416. */
  lemma {:induction false} RefuseClosedRange(first: nat, last: nat, content: seq<byte>)
    requires first > last || last >= |content|
    ensures Respond(Some(ClosedRangeText(first, last)), content)
            == Response(416, Some(UnsatisfiedRange(|content|)), None, false, [])
  {
    var header := ClosedRangeText(first, last);
    assert ParseRangeHeader(header, |content|) == Ok(RangeSet("bytes", [ByteRange(first, last)])) by {
      ClosedHeader(first, last, |content|);
    }
    RespondRefused(header, content, ByteRange(first, last));
  }

  /** One range from `first` to the last byte: 206 with the rest of the content. */
  lemma {:induction false} RespondTail(header: string, content: seq<byte>, first: nat)
    requires ParseRangeHeader(header, |content|) == Ok(RangeSet("bytes", [ByteRange(first, |content| - 1)]))
    requires first < |content|
    ensures Respond(Some(header), content)
            == Response(206, Some(ContentRange(first, |content| - 1, |content|)), Some(|content| - first), true,
                        content[first..])
  {
    RespondPartial(header, content, first, |content| - 1);
    assert content[first..|content| - 1 + 1] == content[first..];
  }

  /** `bytes=first-` from inside the content: 206 with the rest of it. */
  lemma {:induction false} ServeOpenRange(first: nat, content: seq<byte>)
    requires first < |content|
    ensures Respond(Some("bytes=" + FormatNat(first) + "-"), content)
            == Response(206, Some(ContentRange(first, |content| - 1, |content|)), Some(|content| - first), true,
                        content[first..])
  {
    OpenHeader(first, |content|);
    RespondTail("bytes=" + FormatNat(first) + "-", content, first);
  }

  /** `bytes=-n`, at least one byte: 206 with the last `n` bytes, or all when `n` exceeds the length. */
  lemma {:induction false} ServeSuffixRange(n: nat, content: seq<byte>)
    requires 0 < n && 0 < |content|
    ensures var first := Max(0, |content| - n);
            Respond(Some("bytes=-" + FormatNat(n)), content)
            == Response(206, Some(ContentRange(first, |content| - 1, |content|)), Some(|content| - first), true,
                        content[first..])
  {
    SuffixHeader(n, |content|);
    RespondTail("bytes=-" + FormatNat(n), content, Max(0, |content| - n));
  }

  /**
   * Any header a client writes as `bytes=first-last,...`: several ranges
   * are ignored (200), one range is served exactly when the content can
   * satisfy it (206, with those bytes) and refused otherwise (416).
   */
  lemma {:induction false} RespondFormatted(ranges: seq<ByteRange>, content: seq<byte>)
    requires |ranges| >= 1 && Writable(ranges)
    ensures var r := Respond(Some(FormatRangeHeader(ranges)), content);
            && r.status == (if |ranges| > 1 then 200
                            else if Satisfiable(ranges[0], |content|) then 206
                            else 416)
            && (r.status == 200 ==> r.body == content)
            && (r.status == 206 ==> r.body == content[ranges[0].first..ranges[0].last + 1])
  {
    ParseFormattedHeader(ranges, |content|);
  }
}
