# Static content server: byte ranges and locked assets

A model of edx-platform's `StaticContentServer` middleware, which serves
course assets from the content store. The model covers two rules.

- **The access rule.** An unlocked asset is served to everyone. A locked
  asset is served only to a logged-in user who is enrolled in its course or
  is course staff. Anyone else gets 403. A missing asset gets 404.
- **`Range` requests (RFC 7233).** `parse_range_header(header, length)`
  turns `unit=spec,spec,...` into the unit and a list of
  `(first, last)` byte positions. A spec is `first-last`, `first-` (to the
  end) or `-n` (the last `n` bytes). It raises a `ValueError` of one of
  three kinds: invalid syntax, too many values to unpack, or
  invalid literal for `int()`. The middleware answers as follows:
  - one satisfiable `bytes` range: 206 with those bytes, `Content-Range:
    bytes first-last/length` and the matching `Content-Length`;
  - one unsatisfiable range: 416;
  - a header it cannot parse, another unit, or several ranges: the header is
    ignored and the whole asset is sent with 200.

The only source modelled is the middleware's test suite,
`common/djangoapps/contentserver/tests/test.py`. The middleware and
`parse_range_header` themselves are not part of this model. The behaviour
modelled is the behaviour those tests pin down. Where they leave a gap, the
model follows `parse_range_header`'s evident Python 2 semantics:
- `str.split` always yields at least one piece;
- `str.strip` drops ASCII whitespace (space, tab, line feed, carriage
  return, vertical tab, form feed);
- `int()` on a byte string accepts surrounding whitespace, one optional sign,
  whitespace after the sign, and at least one decimal digit, and nothing
  else (`int("- 5") == -5`).

A closed spec `first-last` is cut at its one `-` and each half is read by
`int()`. A suffix spec `-n` is read by `int()` whole, sign included: it
names the last `n` bytes and never starts before byte 0. So `- 5` names
the last 5 bytes, while `--5` and `-+5` are invalid literals.

A malformed header is not answered 400: this server ignores it and sends
the whole asset with 200 (test.py:156-187).

A closed range whose `last` lies past the end is not clamped to the last
byte. Here the model departs from RFC 7233 section 2.1, which clamps it: on
a 10-byte asset `bytes=0-99` is answered 416, where the RFC would send
bytes 0-9 with 206. The past-the-end case of `Responder.RefuseClosedRange`
states this choice. The tests do not settle it: every `last` they send lies
inside the asset or comes with a `first` that lies past the end as well.

Modules:
- `Text` (`text.dfy`): the string primitives: strip, split and join with
  their round trips, decimal formatting, `int()`. `Wrappers` holds `Option`.
- `RangeHeader` (`range_header.dfy`): `parse_range_header`, and the writer
  of `bytes=` headers that it inverts.
- `Responder` (`responder.dfy`): the status, headers and body for an asset
  that may be served.
- `AccessGate` (`access_gate.dfy`): the locked-asset rule.
- `ContentServer` (`content_server.dfy`): one request end to end: look up,
  access check, then range handling.
- `StaticContentServerTests` (`test_suite.dfy`): every assertion of test.py
  as a lemma over the model. The toy-course asset is an arbitrary `content`
  whose length stands for `length_unlocked`.

## Model

| member | source | states |
|---|---|---|
| `Text.Strip` | common/djangoapps/contentserver/tests/test.py:245-251 | result is no longer than the input and neither end is whitespace |
| `Text.StripSlice` | common/djangoapps/contentserver/tests/test.py:245-251 | the stripped spec is a contiguous slice of the input with only whitespace cut away on each side |
| `Text.StripLeadingSpace` | common/djangoapps/contentserver/tests/test.py:245-251 | a leading whitespace character never changes the stripped spec |
| `Text.Split` | common/djangoapps/contentserver/tests/test.py:227-234 | a split yields at least one piece |
| `Text.SplitPieces` | common/djangoapps/contentserver/tests/test.py:227-234 | no piece of a split holds the separator |
| `Text.JoinSplit` | common/djangoapps/contentserver/tests/test.py:227-234 | joining the pieces of a split with the separator gives back the input string |
| `Text.SplitJoin` | common/djangoapps/contentserver/tests/test.py:245-251 | splitting a join of separator-free pieces gives back exactly those pieces |
| `Text.SplitAfter` | common/djangoapps/contentserver/tests/test.py:245-251 | the first separator after a separator-free prefix is where the split cuts |
| `Text.FormatNat` | common/djangoapps/contentserver/tests/test.py:116-123 | `str(n)` is never empty |
| `Text.FormatNatDigits` | common/djangoapps/contentserver/tests/test.py:116-123 | `str(n)` is decimal digits only, has no leading zero unless it is `0`, and its value is `n` |
| `Text.FormatDigits` | common/djangoapps/contentserver/tests/test.py:133-140 | `str` of the number a string of digits without a leading zero denotes is that string; with `Text.ParseDigits`, `str(int(s)) == s` |
| `Text.ParseDigits` | common/djangoapps/contentserver/tests/test.py:237-251 | `int()` of one or more digits is the number they denote, leading zeros included |
| `Text.ParseFormat` | common/djangoapps/contentserver/tests/test.py:133-140 | `int(str(n)) == n` for every natural `n` |
| `Text.ParseSignedSpaced` | common/djangoapps/contentserver/tests/test.py:257-264 | `int(sign + w + str(n))` is `n` with that sign for any run `w` of whitespace, the empty one included: `int("-" + str(n)) == -n`, `int("- 5") == -5`, `int("+ 5") == 5` |
| `Text.ParseInt` | common/djangoapps/contentserver/tests/test.py:253-255 | text that is blank once stripped is an invalid literal; a value read after a leading `-` is at most 0, any other value at least 0 |
| `Text.ParseIntChars` | common/djangoapps/contentserver/tests/test.py:253-255 | `int()` succeeds only on text with a digit and nothing but digits, whitespace and signs |
| `Text.ParseIntNegative` | common/djangoapps/contentserver/tests/test.py:266-268 | `int()` yields a negative value only when the text has a `-` after leading whitespace |
| `RangeHeader.ResolveSpec` | common/djangoapps/contentserver/tests/test.py:233-234 | a stripped spec without `-` is invalid syntax; a resolved range never starts before byte 0, and its `last` is non-negative or the last byte |
| `RangeHeader.ResolveSuffix` | common/djangoapps/contentserver/tests/test.py:257-264 | a resolved suffix starts at byte 0 or later and ends at the last byte |
| `RangeHeader.ResolveOpen` | common/djangoapps/contentserver/tests/test.py:237-243 | a resolved `first-` starts at byte 0 or later and ends at the last byte |
| `RangeHeader.ResolveClosed` | common/djangoapps/contentserver/tests/test.py:249-255 | a resolved `first-last` has both ends non-negative |
| `RangeHeader.ParseSpec` | common/djangoapps/contentserver/tests/test.py:233-234 | a spec without `-` is invalid syntax; a resolved range never starts before byte 0 |
| `RangeHeader.ParseSpecs` | common/djangoapps/contentserver/tests/test.py:245-251 | on success there is one range per spec |
| `RangeHeader.ParseSpecsEach` | common/djangoapps/contentserver/tests/test.py:245-251 | on success the ranges are in spec order, each the one its own spec resolves to |
| `RangeHeader.ParseSpecsError` | common/djangoapps/contentserver/tests/test.py:253-255 | a failure is the error of the first spec that fails, and every spec before it resolved |
| `RangeHeader.ParseSpecsAllGood` | common/djangoapps/contentserver/tests/test.py:245-251 | when every spec resolves, the list parses |
| `RangeHeader.OneSpec` | common/djangoapps/contentserver/tests/test.py:237-243 | a list of one spec parses as that spec |
| `RangeHeader.TwoSpecs` | common/djangoapps/contentserver/tests/test.py:245-251 | a list of two specs parses as both in order, the first failure winning |
| `RangeHeader.ParseRangeHeader` | common/djangoapps/contentserver/tests/test.py:223-234 | no `=` is invalid syntax; success has at least one range |
| `RangeHeader.UnitBeforeEquals` | common/djangoapps/contentserver/tests/test.py:223-225 | the unit of a parsed header is exactly the text before its single `=` |
| `RangeHeader.HeaderOfSpecs` | common/djangoapps/contentserver/tests/test.py:236-251 | `unit=s1,...,sn` parses as unit `unit` with its specs' ranges in order, or fails with the first failing spec's error |
| `RangeHeader.HeaderTwoEquals` | common/djangoapps/contentserver/tests/test.py:230-232 | any header with two `=` fails with too many values to unpack |
| `RangeHeader.SpecClosed` | common/djangoapps/contentserver/tests/test.py:249-251 | `first-last` resolves to `(first, last)` for any naturals, in either order and whatever the length |
| `RangeHeader.ClosedSpec` | common/djangoapps/contentserver/tests/test.py:249-255 | for a stripped `a-b` with no other `-`: an invalid literal exactly when `int(a)` or `int(b)` fails, otherwise the range `(int(a), int(b))` |
| `RangeHeader.SuffixNeedsDigit` | common/djangoapps/contentserver/tests/test.py:266-268 | a stripped suffix spec whose `-` is followed by neither a digit nor whitespace (`-one`, `--5`, `-+5`) is an invalid literal |
| `RangeHeader.SuffixGap` | common/djangoapps/contentserver/tests/test.py:257-264 | whitespace between the `-` and the digits of a suffix changes nothing: `- n` resolves to `(max(0, length - n), length - 1)` |
| `RangeHeader.SpecOpen` | common/djangoapps/contentserver/tests/test.py:237-243 | `first-` resolves to `(first, length - 1)` |
| `RangeHeader.SpecSuffix` | common/djangoapps/contentserver/tests/test.py:257-264 | `-n` resolves to `(max(0, length - n), length - 1)` |
| `RangeHeader.SpecLeadingSpace` | common/djangoapps/contentserver/tests/test.py:245-251 | whitespace before a spec does not change what it resolves to |
| `RangeHeader.ClosedRangeFormatted` | common/djangoapps/contentserver/tests/test.py:133-135 | the one-range header `bytes={first}-{last}` is what the general header writer produces for that single range |
| `RangeHeader.ClosedHeader` | common/djangoapps/contentserver/tests/test.py:189-212 | `bytes=first-last` parses as that one range in unit `bytes` |
| `RangeHeader.OpenHeader` | common/djangoapps/contentserver/tests/test.py:237-243 | `bytes=first-` parses as the one range `(first, length - 1)` |
| `RangeHeader.SuffixHeader` | common/djangoapps/contentserver/tests/test.py:257-260 | `bytes=-n` parses as the one range of the last `n` bytes |
| `RangeHeader.SingleSpec` | common/djangoapps/contentserver/tests/test.py:227-234 | `bytes=spec` parses exactly as its one spec does |
| `RangeHeader.TwoSpecHeader` | common/djangoapps/contentserver/tests/test.py:245-251 | `bytes=a,b` parses as its two specs, the first failure winning |
| `RangeHeader.FormatSpecs` | common/djangoapps/contentserver/tests/test.py:133-135 | one `first-last` spec per range, in decimal |
| `RangeHeader.FormatRangeHeader` | common/djangoapps/contentserver/tests/test.py:133-135 | the header starts with `bytes=`, and splitting the rest on commas gives back the written specs in order |
| `RangeHeader.ParseFormattedSpecs` | common/djangoapps/contentserver/tests/test.py:245-251 | specs written from ranges parse back to those same ranges |
| `RangeHeader.ParseFormattedHeader` | common/djangoapps/contentserver/tests/test.py:236-251 | round trip: a `bytes=` header written from any non-empty list of ranges parses back to exactly that list |
| `Responder.Satisfiable` | common/djangoapps/contentserver/tests/test.py:189-212 | a satisfiable range holds at least one byte and no more bytes than the asset, so an empty asset has none |
| `Responder.ContentRange` | common/djangoapps/contentserver/tests/test.py:116-121 | a 206's `Content-Range` starts with `bytes ` and holds no `*` |
| `Responder.UnsatisfiedRange` | common/djangoapps/contentserver/tests/test.py:189-212 | a 416's `Content-Range` starts with `bytes ` and holds a `*`, so it never equals a 206's |
| `Responder.PlanFor` | common/djangoapps/contentserver/tests/test.py:108-212 | a range chosen for serving lies within the content, first before last |
| `Responder.Respond` | common/djangoapps/contentserver/tests/test.py:108-212 | status is 200, 206 or 416; `Content-Length` is present exactly off 416 and is the body size; a 200 is the whole content with no `Content-Range`; a 416 has no body and `Content-Range` `bytes */length` |
| `Responder.PartialIsSlice` | common/djangoapps/contentserver/tests/test.py:108-140 | a 206 carries one in-bounds slice of the content, and its `Content-Range` names that slice |
| `Responder.RespondIgnored` | common/djangoapps/contentserver/tests/test.py:142-187 | no header, an unparsable one, another unit or several ranges: 200 with the whole content, its length and no `Content-Range` |
| `Responder.RespondPartial` | common/djangoapps/contentserver/tests/test.py:108-140 | one satisfiable `bytes` range: 206, exactly its bytes, `Content-Length` `last - first + 1` and `Content-Range` naming it |
| `Responder.RespondRefused` | common/djangoapps/contentserver/tests/test.py:189-212 | one unsatisfiable `bytes` range: 416, no body and no `Content-Length` |
| `Responder.ServeClosedRange` | common/djangoapps/contentserver/tests/test.py:125-140 | `bytes=first-last` inside the content: 206 with exactly those bytes |
| `Responder.RefuseClosedRange` | common/djangoapps/contentserver/tests/test.py:189-212 | `bytes=first-last` backwards or past the end: 416 |
| `Responder.RespondTail` | common/djangoapps/contentserver/tests/test.py:108-123 | one `bytes` range from `first` to the last byte: 206 with the rest of the content and `Content-Length` `length - first` |
| `Responder.ServeOpenRange` | common/djangoapps/contentserver/tests/test.py:108-123 | `bytes=first-` inside the content: 206 with the rest of the content |
| `Responder.ServeSuffixRange` | common/djangoapps/contentserver/tests/test.py:257-264 | `bytes=-n`: 206 with the last `n` bytes, or the whole content when `n` exceeds it |
| `Responder.RespondFormatted` | common/djangoapps/contentserver/tests/test.py:108-212 | for any header a client writes: several ranges give 200 with everything; one range gives 206 with its bytes exactly when it is satisfiable, 416 otherwise |
| `AccessGate.Decide` | common/djangoapps/contentserver/tests/test.py:62-106 | an unlocked asset is always allowed; a locked one only ever to a logged-in user |
| `AccessGate.UnlockedIsPublic` | common/djangoapps/contentserver/tests/test.py:62-68 | an unlocked asset is allowed to every requester |
| `AccessGate.LockedAllowIff` | common/djangoapps/contentserver/tests/test.py:70-106 | a locked asset is allowed if and only if the requester is logged in and enrolled or staff |
| `AccessGate.MorePrivilegeNeverDenied` | common/djangoapps/contentserver/tests/test.py:79-106 | logging in, enrolling or becoming staff never turns an allow into a deny |
| `AccessGate.LockingOnlyRestricts` | common/djangoapps/contentserver/tests/test.py:62-106 | whoever may read a locked asset may read it unlocked |
| `ContentServer.Serve` | common/djangoapps/contentserver/tests/test.py:62-212 | a missing asset is 404 and a denied request 403, both without a body; an allowed request is answered as `Respond` says |
| `ContentServer.DenialIgnoresRange` | common/djangoapps/contentserver/tests/test.py:70-86 | a denied request gets 403 whatever its `Range` header |
| `ContentServer.BodyIsSliceOfAsset` | common/djangoapps/contentserver/tests/test.py:108-212 | every body sent is a contiguous slice of the asset, and `Content-Length` is its size |
| `StaticContentServerTests.UnlockedAsset` | common/djangoapps/contentserver/tests/test.py:62-68 | anonymous request for the unlocked asset: 200 |
| `StaticContentServerTests.LockedAssetNotLoggedIn` | common/djangoapps/contentserver/tests/test.py:70-77 | anonymous request for the locked asset: 403 |
| `StaticContentServerTests.LockedAssetNotRegistered` | common/djangoapps/contentserver/tests/test.py:79-86 | the locked asset for a user neither enrolled nor staff: 403 |
| `StaticContentServerTests.LockedAssetRegistered` | common/djangoapps/contentserver/tests/test.py:88-98 | the locked asset for an enrolled user: 200 |
| `StaticContentServerTests.LockedAssetStaff` | common/djangoapps/contentserver/tests/test.py:100-106 | the locked asset for staff: 200 |
| `StaticContentServerTests.RangeRequestFullFile` | common/djangoapps/contentserver/tests/test.py:108-123 | `bytes=0-`: 206, `Content-Range` `bytes 0-{length-1}/{length}`, `Content-Length` the length |
| `StaticContentServerTests.RangeRequestPartialFile` | common/djangoapps/contentserver/tests/test.py:125-140 | `bytes={length/4}-{length/2}`: 206, that `Content-Range`, `Content-Length` `last - first + 1` |
| `StaticContentServerTests.RangeRequestMultipleRanges` | common/djangoapps/contentserver/tests/test.py:142-154 | two ranges: 200, no `Content-Range`, `Content-Length` the length |
| `StaticContentServerTests.RangeRequestMalformedMissingEqual` | common/djangoapps/contentserver/tests/test.py:156-162 | `bytes 0-`: 200, no `Content-Range` |
| `StaticContentServerTests.RangeRequestMalformedNotBytes` | common/djangoapps/contentserver/tests/test.py:164-171 | `bits=0-`: 200, no `Content-Range` |
| `StaticContentServerTests.RangeRequestMalformedMissingMinus` | common/djangoapps/contentserver/tests/test.py:173-179 | `bytes=0`: 200, no `Content-Range` |
| `StaticContentServerTests.RangeRequestMalformedFirstNotInteger` | common/djangoapps/contentserver/tests/test.py:181-187 | `bytes=one-`: 200, no `Content-Range` |
| `StaticContentServerTests.RangeRequestMalformedInvalidRange` | common/djangoapps/contentserver/tests/test.py:189-200 | `bytes={length/2}-{length/4}` on at least two bytes: 416 |
| `StaticContentServerTests.RangeRequestMalformedOutOfBounds` | common/djangoapps/contentserver/tests/test.py:202-212 | `bytes={length}-{length}`: 416 |
| `StaticContentServerTests.BytesUnit` | common/djangoapps/contentserver/tests/test.py:223-225 | `bytes=100-` parses with unit `bytes` |
| `StaticContentServerTests.NoEquals` | common/djangoapps/contentserver/tests/test.py:228 | `bytes`: invalid syntax |
| `StaticContentServerTests.EmptySpec` | common/djangoapps/contentserver/tests/test.py:229 | `bytes=`: invalid syntax |
| `StaticContentServerTests.TwoEquals` | common/djangoapps/contentserver/tests/test.py:230-232 | `bytes=0=`: too many values to unpack |
| `StaticContentServerTests.NoMinusSign` | common/djangoapps/contentserver/tests/test.py:233 | `bytes=0`: invalid syntax |
| `StaticContentServerTests.SecondSpecNoMinusSign` | common/djangoapps/contentserver/tests/test.py:234 | `bytes=0-10,0`: invalid syntax |
| `StaticContentServerTests.OpenHundred` | common/djangoapps/contentserver/tests/test.py:237-239 | `bytes=100-` on 10000 bytes: the one range `(100, 9999)` |
| `StaticContentServerTests.OpenThousand` | common/djangoapps/contentserver/tests/test.py:241-243 | `bytes=1000-`: the one range `(1000, 9999)` |
| `StaticContentServerTests.ClosedThenSpaced` | common/djangoapps/contentserver/tests/test.py:245-251 | `bytes=100-199, 200-...`: `(100, 199)` followed by whatever `200-...` resolves to |
| `StaticContentServerTests.ClosedThenOpen` | common/djangoapps/contentserver/tests/test.py:245-247 | `bytes=100-199, 200-`: `[(100, 199), (200, 9999)]` |
| `StaticContentServerTests.ClosedThenClosed` | common/djangoapps/contentserver/tests/test.py:249-251 | `bytes=100-199, 200-499`: `[(100, 199), (200, 499)]` |
| `StaticContentServerTests.ClosedNotInteger` | common/djangoapps/contentserver/tests/test.py:253-255 | `bytes=one-20`: invalid literal |
| `StaticContentServerTests.SuffixHundred` | common/djangoapps/contentserver/tests/test.py:258-260 | `bytes=-100`: the one range `(9900, 9999)` |
| `StaticContentServerTests.TwoSuffixes` | common/djangoapps/contentserver/tests/test.py:262-264 | `bytes=-100, -200`: `[(9900, 9999), (9800, 9999)]` |
| `StaticContentServerTests.SuffixNotInteger` | common/djangoapps/contentserver/tests/test.py:266-268 | `bytes=-one`: invalid literal |

## Left out

- The middleware and `parse_range_header` are not part of this model. Their behaviour is taken from test.py, from RFC 7233 and from the Python 2 built-ins they evidently use.
- Request routing, the content store, thumbnails, caching headers (`Last-Modified`, `If-Modified-Since`, 304) and streaming the body in chunks are left out; the asset is handed to `Serve` whole.
- Multipart (`multipart/byteranges`) answers are left out: the tests expect several ranges to be ignored, so no multipart answer is ever sent.
- Who is logged in, enrolled or staff comes from the session and the enrollment service. Here it is the `Requester` value passed in.
- Text.ParseInt: reads base 10 only, the base `int()` uses when none is given; other bases are not modelled.
- RangeHeader.SpecSuffix: `-n` longer than the content resolves to `(0, length - 1)`, as RFC 7233 section 2.1 prescribes. The tests only use suffixes shorter than the content.
- RangeHeader.SpecClosed: `last` is not clamped to `length - 1`, unlike RFC 7233 section 2.1; the tests cannot tell the two apart, since every `last` they send lies inside the content or comes with a `first` past the end.
- Responder.Respond: the `Content-Range: bytes */length` sent with a 416 follows RFC 7233 section 4.4. The tests check only the 416 status.
- Responder.Respond: `Accept-Ranges: bytes` is modelled as a flag set on 200 and 206 answers. The tests do not look at it.
- Responder.Respond: `Content-Length` is a number. Its rendering is `Text.FormatNat`, which is `str()` for a natural number.
- Other files of the repository (the entrance-exam views, the student-transfer command, the account URL table, the RequireJS storage and build script) are not part of this model: none is the content server.
