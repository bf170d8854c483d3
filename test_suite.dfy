/**
 * The assertions of the content server's test suite, one lemma per test,
 * stated over the model. The toy-course asset is any `content`; its length
 * plays the part of the fixture's `length_unlocked`.
 */
module StaticContentServerTests {
  import opened Wrappers
  import opened Text
  import opened RangeHeader
  import opened Responder
  import opened AccessGate
  import opened ContentServer

  // ------------------------------------------------------------ access to locked assets

  lemma {:induction false} UnlockedAsset(content: seq<byte>)
    ensures Serve(Anonymous, Some(Asset(false, content)), None).status == 200
  {
  }

  lemma {:induction false} LockedAssetNotLoggedIn(content: seq<byte>)
    ensures Serve(Anonymous, Some(Asset(true, content)), None).status == 403
  {
  }

  lemma {:induction false} LockedAssetNotRegistered(content: seq<byte>)
    ensures Serve(User(false, false), Some(Asset(true, content)), None).status == 403
  {
  }

  lemma {:induction false} LockedAssetRegistered(content: seq<byte>)
    ensures Serve(User(true, false), Some(Asset(true, content)), None).status == 200
  {
  }

  lemma {:induction false} LockedAssetStaff(content: seq<byte>)
    ensures Serve(User(false, true), Some(Asset(true, content)), None).status == 200
  {
  }

  // ------------------------------------------------------------ range requests

  /** A logged-out client asking for the unlocked asset with a `Range` header. */
  function Get(range: string, content: seq<byte>): (r: Response)
    ensures r == Respond(Some(range), content)
  {
    UnlockedIsPublic(Anonymous);
    Serve(Anonymous, Some(Asset(false, content)), Some(range))
  }

  /** `bytes=0-` serves the whole file as partial content. */
  lemma {:induction false} RangeRequestFullFile(content: seq<byte>)
    requires |content| > 0
    ensures var r := Get("bytes=0-", content);
            && r.status == 206
            && r.contentRange
               == Some("bytes " + FormatNat(0) + "-" + FormatNat(|content| - 1) + "/" + FormatNat(|content|))
            && r.contentLength == Some(|content|)
  {
    var header := "bytes=" + FormatNat(0) + "-";
    assert "bytes=0-" == header by {
      Decimal0();
    }
    assert Get(header, content).status == 206
           && Get(header, content).contentRange
              == Some(ContentRange(0, |content| - 1, |content|))
           && Get(header, content).contentLength == Some(|content|) by {
      ServeOpenRange(0, content);
    }
  }

  /** `bytes={length/4}-{length/2}` serves those bytes as partial content. */
  lemma {:induction false} RangeRequestPartialFile(content: seq<byte>)
    requires |content| > 0
    ensures var first, last := |content| / 4, |content| / 2;
            var r := Get(ClosedRangeText(first, last), content);
            && r.status == 206
            && r.contentRange
               == Some("bytes " + FormatNat(first) + "-" + FormatNat(last) + "/" + FormatNat(|content|))
            && r.contentLength == Some(last - first + 1)
  {
    var first, last := |content| / 4, |content| / 2;
    Quarters(|content|);
    ClosedRangeRequest(first, last, content);
  }

  /** `bytes=first-last` inside the content. */
  lemma {:induction false} ClosedRangeRequest(first: nat, last: nat, content: seq<byte>)
    requires first <= last < |content|
    ensures Get(ClosedRangeText(first, last), content).status == 206
    ensures Get(ClosedRangeText(first, last), content).contentRange
            == Some("bytes " + FormatNat(first) + "-" + FormatNat(last) + "/" + FormatNat(|content|))
    ensures Get(ClosedRangeText(first, last), content).contentLength
            == Some(last - first + 1)
  {
    ServeClosedRange(first, last, content);
  }

  /** Two ranges, even good ones, get the whole file with 200 and no `Content-Range`. */
  lemma {:induction false} RangeRequestMultipleRanges(content: seq<byte>)
    ensures var first, last := |content| / 4, |content| / 2;
            var r := Get("bytes=" + FormatNat(first) + "-" + FormatNat(last) + ", -100", content);
            && r.status == 200
            && r.contentRange.None?
            && r.contentLength == Some(|content|)
  {
    var length := |content|;
    var closed := FormatNat(length / 4) + "-" + FormatNat(length / 2);
    var suffix := [' '] + ("-" + FormatNat(100));
    var header := "bytes=" + FormatNat(length / 4) + "-" + FormatNat(length / 2) + ", -100";
    assert header == "bytes=" + closed + "," + suffix;
    assert |ParseRangeHeader(header, length).value.ranges| == 2 by {
      FormatNatPlain(length / 4);
      FormatNatPlain(length / 2);
      FormatNatPlain(100);
      SpecClosed(length / 4, length / 2, length);
      SpecLeadingSpace(' ', "-" + FormatNat(100), length);
      SpecSuffix(100, length);
      TwoSpecHeader(closed, suffix, length);
    }
    RespondIgnored(Some(header), content);
  }

  /** `bytes 0-` has no `=`: ignored, whole file. */
  lemma {:induction false} RangeRequestMalformedMissingEqual(content: seq<byte>)
    ensures var r := Get("bytes 0-", content);
            r.status == 200 && r.contentRange.None?
  {
    RespondIgnored(Some("bytes 0-"), content);
  }

  /** `bits=0-` is in another unit: ignored, whole file. */
  lemma {:induction false} RangeRequestMalformedNotBytes(content: seq<byte>)
    ensures var r := Get("bits=0-", content);
            r.status == 200 && r.contentRange.None?
  {
    assert "bits=0-" == "bits" + "=" + Join(["0-"], ',');
    HeaderOfSpecs("bits", ["0-"], |content|);
    RespondIgnored(Some("bits=0-"), content);
  }

  /** `bytes=0` has no `-`: ignored, whole file. */
  lemma {:induction false} RangeRequestMalformedMissingMinus(content: seq<byte>)
    ensures var r := Get("bytes=0", content);
            r.status == 200 && r.contentRange.None?
  {
    MissingMinusHeader(|content|);
    RespondIgnored(Some("bytes=0"), content);
  }

  /** `bytes=one-` has no integer first byte: ignored, whole file. */
  lemma {:induction false} RangeRequestMalformedFirstNotInteger(content: seq<byte>)
    ensures var r := Get("bytes=one-", content);
            r.status == 200 && r.contentRange.None?
  {
    FirstNotIntegerHeader(|content|);
    RespondIgnored(Some("bytes=one-"), content);
  }

  /** `bytes={length/2}-{length/4}` runs backwards: 416. */
  lemma {:induction false} RangeRequestMalformedInvalidRange(content: seq<byte>)
    requires |content| >= 2
    ensures Get(ClosedRangeText(|content| / 2, |content| / 4), content).status == 416
  {
    Quarters(|content|);
    RefuseClosedRange(|content| / 2, |content| / 4, content);
  }

  /** `bytes={length}-{length}` starts one past the last byte: 416. */
  lemma {:induction false} RangeRequestMalformedOutOfBounds(content: seq<byte>)
    ensures Get(ClosedRangeText(|content|, |content|), content).status == 416
  {
    RefuseClosedRange(|content|, |content|, content);
  }

  // ------------------------------------------------------------ parse_range_header

  const ContentLength: nat := 10000

  lemma BytesUnit()
    ensures ParseRangeHeader("bytes=100-", ContentLength).Ok?
    ensures ParseRangeHeader("bytes=100-", ContentLength).value.unit == "bytes"
  {
    OpenHundred();
  }

  lemma NoEquals()
    ensures ParseRangeHeader("bytes", ContentLength) == Err(InvalidSyntax)
  {
  }

  lemma EmptySpec()
    ensures ParseRangeHeader("bytes=", ContentLength) == Err(InvalidSyntax)
  {
    assert "bytes=" == "bytes=" + "";
    SingleSpec("", ContentLength);
  }

  lemma TwoEquals()
    ensures ParseRangeHeader("bytes=0=", ContentLength) == Err(TooManyValues)
  {
    assert "bytes=0=" == "bytes" + "=" + "0" + "=" + "";
    HeaderTwoEquals("bytes", "0", "", ContentLength);
  }

  lemma NoMinusSign()
    ensures ParseRangeHeader("bytes=0", ContentLength) == Err(InvalidSyntax)
  {
    MissingMinusHeader(ContentLength);
  }

  lemma SecondSpecNoMinusSign()
    ensures ParseRangeHeader("bytes=0-10,0", ContentLength) == Err(InvalidSyntax)
  {
    assert "bytes=0-10,0" == "bytes=" + "0-10" + "," + "0";
    assert ParseSpec("0-10", ContentLength).Ok? by {
      Decimal0();
      Decimal10();
      assert "0-10" == FormatNat(0) + "-" + FormatNat(10);
      SpecClosed(0, 10, ContentLength);
    }
    TwoSpecHeader("0-10", "0", ContentLength);
  }

  lemma OpenHundred()
    ensures ParseRangeHeader("bytes=100-", ContentLength) == Ok(RangeSet("bytes", [ByteRange(100, 9999)]))
  {
    Decimal100();
    assert "bytes=100-" == "bytes=" + FormatNat(100) + "-";
    OpenHeader(100, ContentLength);
  }

  lemma OpenThousand()
    ensures ParseRangeHeader("bytes=1000-", ContentLength) == Ok(RangeSet("bytes", [ByteRange(1000, 9999)]))
  {
    Decimal1000();
    assert "bytes=1000-" == "bytes=" + FormatNat(1000) + "-";
    OpenHeader(1000, ContentLength);
  }

  /** `100-199` and, after a space, `200-{tail}` with `200-{tail}` resolving to `second`. */
  lemma {:induction false} ClosedThenSpaced(tail: string, second: ByteRange)
    requires '=' !in tail && ',' !in tail
    requires ParseSpec("200-" + tail, ContentLength) == Ok(second)
    ensures ParseRangeHeader("bytes=100-199, 200-" + tail, ContentLength)
            == Ok(RangeSet("bytes", [ByteRange(100, 199), second]))
  {
    var a := FormatNat(100) + "-" + FormatNat(199);
    var b := [' '] + ("200-" + tail);
    assert ParseSpec(a, ContentLength) == Ok(ByteRange(100, 199)) by {
      SpecClosed(100, 199, ContentLength);
    }
    assert ParseSpec(b, ContentLength) == Ok(second) by {
      SpecLeadingSpace(' ', "200-" + tail, ContentLength);
    }
    assert '=' !in a && ',' !in a by {
      FormatNatPlain(100);
      FormatNatPlain(199);
    }
    ClosedThenSpacedText(tail);
    TwoSpecHeader(a, b, ContentLength);
  }

  lemma ClosedThenOpen()
    ensures ParseRangeHeader("bytes=100-199, 200-", ContentLength)
            == Ok(RangeSet("bytes", [ByteRange(100, 199), ByteRange(200, 9999)]))
  {
    Decimal200();
    assert "200-" + "" == FormatNat(200) + "-";
    SpecOpen(200, ContentLength);
    ClosedThenSpaced("", ByteRange(200, 9999));
    assert "bytes=100-199, 200-" + "" == "bytes=100-199, 200-";
  }

  lemma ClosedThenClosed()
    ensures ParseRangeHeader("bytes=100-199, 200-499", ContentLength)
            == Ok(RangeSet("bytes", [ByteRange(100, 199), ByteRange(200, 499)]))
  {
    var tail := "499";
    assert ParseSpec("200-" + tail, ContentLength) == Ok(ByteRange(200, 499)) by {
      ClosedTailText();
      SpecClosed(200, 499, ContentLength);
    }
    assert ParseRangeHeader("bytes=100-199, 200-" + tail, ContentLength)
           == Ok(RangeSet("bytes", [ByteRange(100, 199), ByteRange(200, 499)])) by {
      ClosedThenSpaced(tail, ByteRange(200, 499));
    }
    assert "bytes=100-199, 200-" + tail == "bytes=100-199, 200-499";
  }

  lemma ClosedNotInteger()
    ensures ParseRangeHeader("bytes=one-20", ContentLength) == Err(InvalidLiteral)
  {
    assert "bytes=one-20" == "bytes=" + "one-20";
    SingleSpec("one-20", ContentLength);
    ClosedFirstNotInteger(ContentLength);
  }

  lemma SuffixHundred()
    ensures ParseRangeHeader("bytes=-100", ContentLength) == Ok(RangeSet("bytes", [ByteRange(9900, 9999)]))
  {
    Decimal100();
    assert "bytes=-100" == "bytes=-" + FormatNat(100);
    SuffixHeader(100, ContentLength);
  }

  lemma TwoSuffixes()
    ensures ParseRangeHeader("bytes=-100, -200", ContentLength)
            == Ok(RangeSet("bytes", [ByteRange(9900, 9999), ByteRange(9800, 9999)]))
  {
    var a := "-" + FormatNat(100);
    var b := [' '] + ("-" + FormatNat(200));
    assert ParseSpec(a, ContentLength) == Ok(ByteRange(9900, 9999)) by {
      SpecSuffix(100, ContentLength);
    }
    assert ParseSpec(b, ContentLength) == Ok(ByteRange(9800, 9999)) by {
      SpecLeadingSpace(' ', "-" + FormatNat(200), ContentLength);
      SpecSuffix(200, ContentLength);
    }
    assert '=' !in a && ',' !in a && '=' !in b && ',' !in b by {
      FormatNatPlain(100);
      FormatNatPlain(200);
    }
    TwoSuffixesText();
    TwoSpecHeader(a, b, ContentLength);
  }

  lemma SuffixNotInteger()
    ensures ParseRangeHeader("bytes=-one", ContentLength) == Err(InvalidLiteral)
  {
    assert ParseSpec("-one", ContentLength) == Err(InvalidLiteral) by {
      StripUntouched("-one");
      assert "-one"[1..] == "one";
      assert ParseInt("one") == None;
    }
    assert "bytes=-one" == "bytes=" + "-one";
    SingleSpec("-one", ContentLength);
  }

  // ------------------------------------------------------------ helpers

  /** `bytes=0`: the one spec has no `-`. */
  lemma {:induction false} MissingMinusHeader(length: nat)
    ensures ParseRangeHeader("bytes=0", length) == Err(InvalidSyntax)
  {
    assert "bytes=0" == "bytes=" + "0";
    SingleSpec("0", length);
  }

  /** `bytes=one-`: the one spec's first byte position is not an integer. */
  lemma {:induction false} FirstNotIntegerHeader(length: nat)
    ensures ParseRangeHeader("bytes=one-", length) == Err(InvalidLiteral)
  {
    assert "bytes=one-" == "bytes=" + "one-";
    SingleSpec("one-", length);
    OpenNotInteger(length);
  }

  /** `one-`: the first byte position is not an integer. */
  lemma {:induction false} OpenNotInteger(length: nat)
    ensures ParseSpec("one-", length) == Err(InvalidLiteral)
  {
    StripUntouched("one-");
    assert ParseInt("one") == None;
  }

  /** `one-20`: the first byte position is not an integer. */
  lemma {:induction false} ClosedFirstNotInteger(length: nat)
    ensures ParseSpec("one-20", length) == Err(InvalidLiteral)
  {
    assert "one-20" == "one" + "-" + "20";
    assert Strip("one-20") == "one-20" by {
      StripUntouched("one-20");
    }
    assert ParseInt("one") == None;
    ClosedSpec("one", "20", length);
  }

  lemma TwoSuffixesText()
    ensures "bytes=-100, -200" == "bytes=" + ("-" + FormatNat(100)) + "," + ([' '] + ("-" + FormatNat(200)))
  {
    Decimal100();
    Decimal200();
  }

  lemma {:induction false} ClosedThenSpacedText(tail: string)
    ensures "bytes=100-199, 200-" + tail
            == "bytes=" + (FormatNat(100) + "-" + FormatNat(199)) + "," + ([' '] + ("200-" + tail))
  {
    Decimal100();
    Decimal199();
  }

  lemma ClosedTailText()
    ensures "200-" + "499" == FormatNat(200) + "-" + FormatNat(499)
  {
    Decimal200();
    Decimal499();
  }

  /** A quarter of a length is at most its half, and the half of a positive length is inside it. */
  lemma {:induction false} Quarters(n: nat)
    ensures n / 4 <= n / 2
    ensures n > 0 ==> n / 2 < n
    ensures n >= 2 ==> n / 4 < n / 2
  {
  }

  // The decimal literals the tests write.

  lemma Decimal0()
    ensures FormatNat(0) == "0"
  {
    FormatDigits("0");
  }

  lemma Decimal10()
    ensures FormatNat(10) == "10"
  {
    FormatDigits("10");
  }

  lemma Decimal100()
    ensures FormatNat(100) == "100"
  {
    FormatDigits("100");
  }

  lemma Decimal199()
    ensures FormatNat(199) == "199"
  {
    FormatDigits("199");
  }

  lemma Decimal200()
    ensures FormatNat(200) == "200"
  {
    FormatDigits("200");
  }

  lemma Decimal499()
    ensures FormatNat(499) == "499"
  {
    FormatDigits("499");
  }

  lemma Decimal1000()
    ensures FormatNat(1000) == "1000"
  {
    FormatDigits("1000");
  }
}
