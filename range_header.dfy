/**
 * The static content server's parser for the HTTP `Range` request header
 * (a subset of RFC 7233, section 2.1): a header value such as
 * `bytes=100-199, -500` and the resource's length become the unit and the
 * list of inclusive byte intervals, in header order, or a parse error.
 */
module RangeHeader {
  import opened Wrappers
  import opened Text

  /** The three ways a header value is rejected, each a `ValueError` in the server. */
  datatype ParseError =
    | InvalidSyntax   // "Invalid syntax": no `=`, or a spec (possibly empty) without `-`
    | TooManyValues   // "too many values to unpack": a second `=`, or a second `-` in `first-last`
    | InvalidLiteral  // "invalid literal for int()": an offset that is not an integer

  /** An inclusive interval of byte offsets, as resolved against the length; not yet checked against it. */
  datatype ByteRange = ByteRange(first: int, last: int)

  /** The unit written before `=` and the resolved ranges, left to right. */
  datatype RangeSet = RangeSet(unit: string, ranges: seq<ByteRange>)

  datatype Result<T> = Ok(value: T) | Err(error: ParseError)

  function Max(a: int, b: int): int {
    if a < b then b else a
  }

  /**
   * One comma-separated spec, whitespace stripped: `-N` asks for the last
   * N bytes, `first-` for everything from `first`, `first-last` for the
   * bytes between. The missing end defaults to the last byte, `length - 1`.
   */
  function ParseSpec(spec: string, length: nat): (r: Result<ByteRange>)
    ensures '-' !in spec ==> r == Err(InvalidSyntax)
    ensures r.Ok? ==> r.value.first >= 0
    ensures r.Ok? ==> r.value.last >= 0 || r.value.last == length - 1
  {
    StripWithout(spec, '-');
    ResolveSpec(Strip(spec), length)
  }

  /** A stripped spec, told apart by where its `-` stands. */
  function ResolveSpec(s: string, length: nat): (r: Result<ByteRange>)
    requires |s| > 0 ==> !IsSpace(s[0])
    ensures '-' !in s ==> r == Err(InvalidSyntax)
    ensures r.Ok? ==> r.value.first >= 0
    ensures r.Ok? ==> r.value.last >= 0 || r.value.last == length - 1
  {
    if '-' !in s then Err(InvalidSyntax)
    else if s[0] == '-' then ResolveSuffix(s, length)
    else if s[|s| - 1] == '-' then ResolveOpen(s[..|s| - 1], length)
    else ResolveClosed(s, length)
  }

  /**
   * `-N`: the last N bytes, never starting before byte 0. The whole spec,
   * sign included, is read as one (negative) integer: `- 5` is the last 5
   * bytes, while `--5` and `-+5` are invalid literals.
   */
  function ResolveSuffix(s: string, length: nat): (r: Result<ByteRange>)
    ensures r.Ok? ==> r.value.first >= 0 && r.value.last == length - 1
  {
    match ParseInt(s)
    case None => Err(InvalidLiteral)
    case Some(v) => Ok(ByteRange(Max(0, length + v), length - 1))
  }

  /** `first-`: from `first` to the last byte. */
  function ResolveOpen(first: string, length: nat): (r: Result<ByteRange>)
    requires |first| > 0 && first[0] != '-' && !IsSpace(first[0])
    ensures r.Ok? ==> r.value.first >= 0 && r.value.last == length - 1
  {
    match ParseInt(first)
    case None => Err(InvalidLiteral)
    case Some(v) =>
      NoLeadingMinus(first, v);
      Ok(ByteRange(v, length - 1))
  }

  /** `first-last`, split at every `-`: exactly two pieces unpack. */
  function ResolveClosed(s: string, length: nat): (r: Result<ByteRange>)
    ensures r.Ok? ==> r.value.first >= 0 && r.value.last >= 0
  {
    var parts := Split(s, '-');
    if |parts| != 2 then
      Err(TooManyValues)
    else
      match ParseInt(parts[0])
      case None => Err(InvalidLiteral)
      case Some(first) =>
        match ParseInt(parts[1])
        case None => Err(InvalidLiteral)
        case Some(last) =>
          SplitPieces(s, '-');
          NoMinus(parts[0], first);
          NoMinus(parts[1], last);
          Ok(ByteRange(first, last))
  }

  /** `int()` of a string whose first character is neither `-` nor whitespace is not negative. */
  lemma {:induction false} NoLeadingMinus(s: string, v: int)
    requires ParseInt(s) == Some(v)
    requires |s| > 0 && s[0] != '-' && !IsSpace(s[0])
    ensures v >= 0
  {
    if v < 0 {
      ParseIntNegative(s);
    }
  }

  /** `int()` of a string without `-` is not negative. */
  lemma {:induction false} NoMinus(s: string, v: int)
    requires ParseInt(s) == Some(v) && '-' !in s
    ensures v >= 0
  {
    if v < 0 {
      ParseIntNegative(s);
    }
  }

  /**
   * The specs in order: on success one range per spec, each the one its
   * spec resolves to. (`ParseSpecsError` states the failing case.)
   */
  function ParseSpecs(specs: seq<string>, length: nat): (r: Result<seq<ByteRange>>)
    ensures r.Ok? ==> |r.value| == |specs|
    decreases |specs|
  {
    if |specs| == 0 then
      Ok([])
    else
      match ParseSpec(specs[0], length)
      case Err(e) => Err(e)
      case Ok(range) =>
        match ParseSpecs(specs[1..], length)
        case Err(e) => Err(e)
        case Ok(rest) => Ok([range] + rest)
  }

  /** On success every range is the one its own spec resolves to, in order. */
  lemma {:induction false} ParseSpecsEach(specs: seq<string>, length: nat)
    requires ParseSpecs(specs, length).Ok?
    ensures forall k :: 0 <= k < |specs| ==>
              ParseSpec(specs[k], length) == Ok(ParseSpecs(specs, length).value[k])
    decreases |specs|
  {
    if |specs| > 0 {
      var r := ParseSpecs(specs, length).value;
      var rest := ParseSpecs(specs[1..], length).value;
      ParseSpecsEach(specs[1..], length);
      assert forall k :: 1 <= k < |specs| ==> specs[k] == specs[1..][k - 1] && r[k] == rest[k - 1];
    }
  }

  /**
   * The first spec that fails fails the whole list with its own error, and
   * the ranges of the good specs before it are dropped.
   */
  lemma {:induction false} ParseSpecsError(specs: seq<string>, length: nat) returns (k: nat)
    requires ParseSpecs(specs, length).Err?
    ensures k < |specs| && ParseSpec(specs[k], length) == Err(ParseSpecs(specs, length).error)
    ensures forall j :: 0 <= j < k ==> ParseSpec(specs[j], length).Ok?
    decreases |specs|
  {
    if ParseSpec(specs[0], length).Err? {
      k := 0;
    } else {
      var k' := ParseSpecsError(specs[1..], length);
      k := k' + 1;
      forall j | 0 <= j < k ensures ParseSpec(specs[j], length).Ok? {
        if j > 0 { assert specs[j] == specs[1..][j - 1]; }
      }
    }
  }

  /** A list of one spec parses as that spec. */
  lemma {:induction false} OneSpec(spec: string, length: nat)
    ensures ParseSpecs([spec], length)
            == match ParseSpec(spec, length)
               case Ok(range) => Ok([range])
               case Err(e) => Err(e)
  {
    var p := ParseSpec(spec, length);
    assert [spec][0] == spec && [spec][1..] == [];
    assert ParseSpecs([], length) == Ok([]);
    if p.Ok? {
      assert [p.value] + [] == [p.value];
      assert ParseSpecs([spec], length) == Ok([p.value]);
    } else {
      assert ParseSpecs([spec], length) == Err(p.error);
    }
  }

  /** A list of specs that each resolve parses as a whole. */
  lemma {:induction false} ParseSpecsAllGood(specs: seq<string>, length: nat)
    requires forall k :: 0 <= k < |specs| ==> ParseSpec(specs[k], length).Ok?
    ensures ParseSpecs(specs, length).Ok?
  {
    if ParseSpecs(specs, length).Err? {
      var k := ParseSpecsError(specs, length);
    }
  }

  /**
   * The whole header value: `unit=spec,spec,...`. The unit is passed
   * through unchecked; what to do with an unknown unit is the responder's
   * decision. A successful parse yields at least one range.
   * (`UnitBeforeEquals` states where the unit comes from.)
   */
  function ParseRangeHeader(header: string, length: nat): (r: Result<RangeSet>)
    ensures '=' !in header ==> r == Err(InvalidSyntax)
    ensures r.Ok? ==> |r.value.ranges| >= 1
  {
    if '=' !in header then
      Err(InvalidSyntax)
    else
      var halves := Split(header, '=');
      if |halves| != 2 then
        Err(TooManyValues)
      else
        match ParseSpecs(Split(halves[1], ','), length)
        case Err(e) => Err(e)
        case Ok(ranges) =>
          Ok(RangeSet(halves[0], ranges))
  }

  /** The unit of a parsed header is exactly the text before its one `=`. */
  lemma {:induction false} UnitBeforeEquals(header: string, length: nat)
    ensures var r := ParseRangeHeader(header, length);
            r.Ok? ==> '=' !in r.value.unit && |r.value.unit| < |header|
                      && header[..|r.value.unit| + 1] == r.value.unit + "="
  {
    if ParseRangeHeader(header, length).Ok? {
      JoinSplit(header, '=');
      SplitPieces(header, '=');
    }
  }

  // ------------------------------------------------------------ the three forms

  /** `first-last` resolves to exactly `(first, last)`, whatever the length. */
  lemma {:induction false} SpecClosed(first: nat, last: nat, length: nat)
    ensures ParseSpec(FormatNat(first) + "-" + FormatNat(last), length) == Ok(ByteRange(first, last))
  {
    var a, b := FormatNat(first), FormatNat(last);
    var s := a + "-" + b;
    FormatNatPlain(first);
    FormatNatPlain(last);
    assert Split(s, '-') == [a, b] by {
      SplitJoin([a, b], '-');
      assert Join([a, b], '-') == s;
    }
    assert ResolveClosed(s, length) == Ok(ByteRange(first, last)) by {
      ParseFormat(first);
      ParseFormat(last);
    }
    assert IsDigit(s[0]) && IsDigit(s[|s| - 1]) && s[|a|] == '-';
    StripUntouched(s);
    ClosedShape(s, length);
  }

  /** A stripped spec with a `-` strictly inside is read as `first-last`. */
  lemma {:induction false} ClosedShape(s: string, length: nat)
    requires Strip(s) == s && '-' in s && s[0] != '-' && s[|s| - 1] != '-'
    ensures ParseSpec(s, length) == ResolveClosed(s, length)
  {
  }

  /**
   * `a-b` with text on both sides of its one `-` and no whitespace around
   * it: an invalid literal exactly when `int()` rejects `a` or `b`, and
   * otherwise the range `(int(a), int(b))`.
   */
  lemma {:induction false} ClosedSpec(a: string, b: string, length: nat)
    requires |a| > 0 && |b| > 0 && '-' !in a && '-' !in b
    requires Strip(a + "-" + b) == a + "-" + b
    ensures ParseSpec(a + "-" + b, length)
            == match (ParseInt(a), ParseInt(b))
               case (Some(x), Some(y)) => Ok(ByteRange(x, y))
               case _ => Err(InvalidLiteral)
  {
    var s := a + "-" + b;
    assert Split(s, '-') == [a, b] by {
      SplitJoin([a, b], '-');
      assert Join([a, b], '-') == s;
    }
    assert s[0] == a[0] && s[|s| - 1] == b[|b| - 1] && s[|a|] == '-';
    ClosedShape(s, length);
  }

  /**
   * A suffix spec whose `-` is followed by neither a digit nor whitespace
   * (`-one`, `--5`, `-+5`) is an invalid literal.
   */
  lemma {:induction false} SuffixNeedsDigit(s: string, length: nat)
    requires |s| >= 2 && s[0] == '-' && !IsDigit(s[1]) && !IsSpace(s[1]) && Strip(s) == s
    ensures ParseSpec(s, length) == Err(InvalidLiteral)
  {
    assert TrimLeft(s[1..]) == s[1..] by {
      assert s[1..][0] == s[1];
    }
    assert !AllDigits(s[1..]) by {
      assert s[1..][0] == s[1];
    }
    assert ParseInt(s) == None;
  }

  /** Whitespace between the `-` and the digits of a suffix (`- 5`) is allowed. */
  lemma {:induction false} SuffixGap(w: string, n: nat, length: nat)
    requires AllSpace(w)
    ensures ParseSpec("-" + w + FormatNat(n), length) == Ok(ByteRange(Max(0, length - n), length - 1))
  {
    var s := "-" + w + FormatNat(n);
    FormatNatPlain(n);
    assert ResolveSuffix(s, length) == Ok(ByteRange(Max(0, length - n), length - 1)) by {
      ParseSignedSpaced('-', w, n);
    }
    assert ResolveSpec(s, length) == ResolveSuffix(s, length) by {
      assert s[0] == '-';
    }
    assert ParseSpec(s, length) == ResolveSpec(s, length) by {
      FormatNatDigits(n);
      assert !IsSpace(s[0]) && s[|s| - 1] == FormatNat(n)[|FormatNat(n)| - 1];
      StripUntouched(s);
    }
  }

  /** `first-` resolves to `(first, length - 1)`. */
  lemma {:induction false} SpecOpen(first: nat, length: nat)
    ensures ParseSpec(FormatNat(first) + "-", length) == Ok(ByteRange(first, length - 1))
  {
    var a := FormatNat(first);
    var s := a + "-";
    FormatNatPlain(first);
    assert ResolveOpen(a, length) == Ok(ByteRange(first, length - 1)) by {
      ParseFormat(first);
    }
    assert ResolveSpec(s, length) == ResolveOpen(a, length) by {
      assert s[..|s| - 1] == a;
      assert s[0] == a[0] && s[|s| - 1] == '-';
    }
    assert ParseSpec(s, length) == ResolveSpec(s, length) by {
      assert IsDigit(s[0]) && !IsSpace(s[|s| - 1]);
      StripUntouched(s);
    }
  }

  /** `-n` resolves to the last `n` bytes, `(max(0, length - n), length - 1)`. */
  lemma {:induction false} SpecSuffix(n: nat, length: nat)
    ensures ParseSpec("-" + FormatNat(n), length) == Ok(ByteRange(Max(0, length - n), length - 1))
  {
    var b := FormatNat(n);
    var s := "-" + b;
    FormatNatPlain(n);
    assert ResolveSuffix(s, length) == Ok(ByteRange(Max(0, length - n), length - 1)) by {
      assert s == ['-'] + "" + b;
      ParseSignedSpaced('-', "", n);
    }
    assert ResolveSpec(s, length) == ResolveSuffix(s, length) by {
      assert s[0] == '-';
    }
    assert ParseSpec(s, length) == ResolveSpec(s, length) by {
      assert !IsSpace(s[0]) && IsDigit(s[|s| - 1]);
      StripUntouched(s);
    }
  }

  /** Whitespace before a spec (as after `, `) does not change its meaning. */
  lemma {:induction false} SpecLeadingSpace(c: char, spec: string, length: nat)
    requires IsSpace(c)
    ensures ParseSpec([c] + spec, length) == ParseSpec(spec, length)
  {
    StripLeadingSpace(c, spec);
  }

  // ------------------------------------------------------------ the header

  /**
   * A header `unit=s1,s2,...` whose unit and specs hold no `=` and no `,`
   * parses as its specs do, one by one and in order, with the unit kept
   * verbatim.
   */
  lemma {:induction false} HeaderOfSpecs(unit: string, specs: seq<string>, length: nat)
    requires '=' !in unit && |specs| >= 1
    requires forall k :: 0 <= k < |specs| ==> '=' !in specs[k] && ',' !in specs[k]
    ensures ParseRangeHeader(unit + "=" + Join(specs, ','), length)
            == match ParseSpecs(specs, length)
               case Ok(ranges) => Ok(RangeSet(unit, ranges))
               case Err(e) => Err(e)
  {
    var body := Join(specs, ',');
    var header := unit + "=" + body;
    JoinWithout(specs, ',', '=');
    SplitJoin([unit, body], '=');
    assert Join([unit, body], '=') == header;
    assert '=' in header by { assert header[|unit|] == '='; }
    SplitJoin(specs, ',');
  }

  /** The number of pieces of a split adds up across a separator. */
  lemma {:induction false} SplitCount(a: string, sep: char, b: string)
    ensures |Split(a + [sep] + b, sep)| == |Split(a, sep)| + |Split(b, sep)|
    decreases |a|
  {
    var s := a + [sep] + b;
    if |a| == 0 {
      assert s[1..] == b;
    } else {
      assert s[1..] == a[1..] + [sep] + b;
      SplitCount(a[1..], sep, b);
    }
  }

  /** A header with two or more `=` cannot be unpacked into unit and specs. */
  lemma {:induction false} HeaderTwoEquals(a: string, b: string, c: string, length: nat)
    ensures ParseRangeHeader(a + "=" + b + "=" + c, length) == Err(TooManyValues)
  {
    var header := a + "=" + b + "=" + c;
    assert header == a + ['='] + (b + ['='] + c);
    assert '=' in header by { assert header[|a|] == '='; }
    SplitCount(a, '=', b + ['='] + c);
    SplitCount(b, '=', c);
  }

  // ------------------------------------------------------------ one-spec headers

  /** `bytes=first-last` parses as that one range, in unit `bytes`. */
  lemma {:induction false} ClosedHeader(first: nat, last: nat, length: nat)
    ensures ParseRangeHeader(ClosedRangeText(first, last), length)
            == Ok(RangeSet("bytes", [ByteRange(first, last)]))
  {
    var spec := FormatNat(first) + "-" + FormatNat(last);
    assert ClosedRangeText(first, last) == "bytes=" + spec;
    FormatNatPlain(first);
    FormatNatPlain(last);
    SpecClosed(first, last, length);
    SingleSpec(spec, length);
  }

  /** `bytes=first-` parses as the one range `(first, length - 1)`. */
  lemma {:induction false} OpenHeader(first: nat, length: nat)
    ensures ParseRangeHeader("bytes=" + FormatNat(first) + "-", length)
            == Ok(RangeSet("bytes", [ByteRange(first, length - 1)]))
  {
    var spec := FormatNat(first) + "-";
    assert "bytes=" + FormatNat(first) + "-" == "bytes=" + spec;
    FormatNatPlain(first);
    SpecOpen(first, length);
    SingleSpec(spec, length);
  }

  /** `bytes=-n` parses as the one range of the last `n` bytes. */
  lemma {:induction false} SuffixHeader(n: nat, length: nat)
    ensures ParseRangeHeader("bytes=-" + FormatNat(n), length)
            == Ok(RangeSet("bytes", [ByteRange(Max(0, length - n), length - 1)]))
  {
    var spec := "-" + FormatNat(n);
    assert "bytes=-" + FormatNat(n) == "bytes=" + spec;
    FormatNatPlain(n);
    SpecSuffix(n, length);
    SingleSpec(spec, length);
  }

  /** `bytes=` followed by one spec without `=` or `,` parses as that spec alone. */
  lemma {:induction false} SingleSpec(spec: string, length: nat)
    requires '=' !in spec && ',' !in spec
    ensures ParseRangeHeader("bytes=" + spec, length)
            == match ParseSpec(spec, length)
               case Ok(range) => Ok(RangeSet("bytes", [range]))
               case Err(e) => Err(e)
  {
    assert "bytes" + "=" + Join([spec], ',') == "bytes=" + spec;
    HeaderOfSpecs("bytes", [spec], length);
    OneSpec(spec, length);
  }

  /** A list of two specs parses as both, in order; the first failure wins. */
  lemma {:induction false} TwoSpecs(a: string, b: string, length: nat)
    ensures ParseSpecs([a, b], length)
            == match (ParseSpec(a, length), ParseSpec(b, length))
               case (Ok(x), Ok(y)) => Ok([x, y])
               case (Err(e), _) => Err(e)
               case (Ok(_), Err(e)) => Err(e)
  {
    var pa, pb := ParseSpec(a, length), ParseSpec(b, length);
    assert [a, b][0] == a && [a, b][1..] == [b];
    OneSpec(b, length);
    if pa.Ok? && pb.Ok? {
      assert [pa.value] + [pb.value] == [pa.value, pb.value];
    }
  }

  /** `bytes=a,b`, with neither spec holding `=` or `,`, parses as those two specs. */
  lemma {:induction false} TwoSpecHeader(a: string, b: string, length: nat)
    requires '=' !in a && ',' !in a && '=' !in b && ',' !in b
    ensures ParseRangeHeader("bytes=" + a + "," + b, length)
            == match (ParseSpec(a, length), ParseSpec(b, length))
               case (Ok(x), Ok(y)) => Ok(RangeSet("bytes", [x, y]))
               case (Err(e), _) => Err(e)
               case (Ok(_), Err(e)) => Err(e)
  {
    assert [a, b][1..] == [b];
    assert Join([a, b], ',') == a + "," + b;
    assert "bytes" + "=" + Join([a, b], ',') == "bytes=" + a + "," + b;
    HeaderOfSpecs("bytes", [a, b], length);
    TwoSpecs(a, b, length);
  }

  // ------------------------------------------------------------ the header a client writes

  /** Byte positions a client can write: neither is negative. */
  predicate Writable(ranges: seq<ByteRange>) {
    forall k :: 0 <= k < |ranges| ==> ranges[k].first >= 0 && ranges[k].last >= 0
  }

  /** Each range as the spec `first-last`, in decimal. */
  function FormatSpecs(ranges: seq<ByteRange>): (specs: seq<string>)
    requires Writable(ranges)
    ensures |specs| == |ranges|
    ensures forall k :: 0 <= k < |ranges| ==>
              specs[k] == FormatNat(ranges[k].first as nat) + "-" + FormatNat(ranges[k].last as nat)
    decreases |ranges|
  {
    if |ranges| == 0 then []
    else
      [FormatNat(ranges[0].first as nat) + "-" + FormatNat(ranges[0].last as nat)]
      + FormatSpecs(ranges[1..])
  }

  /**
   * `bytes=first-last,first-last,...` for one or more ranges: after the
   * unit and `=`, splitting on commas gives back the specs one by one.
   */
  function FormatRangeHeader(ranges: seq<ByteRange>): (r: string)
    requires |ranges| >= 1 && Writable(ranges)
    ensures |r| >= 6 && r[..6] == "bytes="
    ensures Split(r[6..], ',') == FormatSpecs(ranges)
  {
    var specs := FormatSpecs(ranges);
    FormattedSpecsPlain(ranges);
    SplitJoin(specs, ',');
    var r := "bytes=" + Join(specs, ',');
    assert r[6..] == Join(specs, ',');
    r
  }

  /** `bytes={first}-{last}`: the header a client writes for one closed range, in decimal. */
  function ClosedRangeText(first: nat, last: nat): string {
    "bytes=" + FormatNat(first) + "-" + FormatNat(last)
  }

  /** The one-range header is what the general writer produces for that range. */
  lemma {:induction false} ClosedRangeFormatted(first: nat, last: nat)
    ensures ClosedRangeText(first, last) == FormatRangeHeader([ByteRange(first, last)])
  {
    var spec := FormatNat(first) + "-" + FormatNat(last);
    assert FormatSpecs([ByteRange(first, last)]) == [spec];
    assert Join([spec], ',') == spec;
  }

  /** The written specs parse back, one by one, to the ranges they came from. */
  lemma {:induction false} ParseFormattedSpecs(ranges: seq<ByteRange>, length: nat)
    requires Writable(ranges)
    ensures ParseSpecs(FormatSpecs(ranges), length) == Ok(ranges)
    decreases |ranges|
  {
    if |ranges| > 0 {
      var specs := FormatSpecs(ranges);
      var first, last := ranges[0].first as nat, ranges[0].last as nat;
      SpecClosed(first, last, length);
      assert specs[0] == FormatNat(first) + "-" + FormatNat(last);
      assert specs[1..] == FormatSpecs(ranges[1..]);
      ParseFormattedSpecs(ranges[1..], length);
      assert ranges == [ByteRange(first, last)] + ranges[1..];
    }
  }

  /**
   * Round trip: a header written from any non-empty list of ranges parses
   * back to exactly those ranges, in unit `bytes`, whatever the length.
   */
  lemma {:induction false} ParseFormattedHeader(ranges: seq<ByteRange>, length: nat)
    requires |ranges| >= 1 && Writable(ranges)
    ensures ParseRangeHeader(FormatRangeHeader(ranges), length) == Ok(RangeSet("bytes", ranges))
  {
    var specs := FormatSpecs(ranges);
    var header := "bytes" + "=" + Join(specs, ',');
    assert header == FormatRangeHeader(ranges);
    assert ParseRangeHeader(header, length) == Ok(RangeSet("bytes", ranges)) by {
      FormattedSpecsPlain(ranges);
      ParseFormattedSpecs(ranges, length);
      HeaderOfSpecs("bytes", specs, length);
    }
  }

  /** No written spec holds `=` or `,`. */
  lemma {:induction false} FormattedSpecsPlain(ranges: seq<ByteRange>)
    requires Writable(ranges)
    ensures forall k :: 0 <= k < |ranges| ==> '=' !in FormatSpecs(ranges)[k] && ',' !in FormatSpecs(ranges)[k]
  {
    var specs := FormatSpecs(ranges);
    forall k | 0 <= k < |ranges| ensures '=' !in specs[k] && ',' !in specs[k] {
      FormatNatPlain(ranges[k].first as nat);
      FormatNatPlain(ranges[k].last as nat);
    }
  }
}
