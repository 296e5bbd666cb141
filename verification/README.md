# protovalidate-cc: recognisers and validation traversal

Dafny 4.11 model of the two cores of the C++ runtime for Protovalidate, with proofs about them.
`dafny verify dfyconfig.toml` checks everything.

## What is modelled

**The text recognisers** (`buf/validate/internal/lib`, and their callers in
`buf/validate/internal/extra_func.cc`). `Parsing.ParserCommon` is the cursor: a class whose field
`str` the `Consume*` and `Parse*` methods advance or restore. `IPv4.IPv4Parser` and
`IPv6.IPv6Parser` assemble their bits in place with shifts and ORs of fixed width; the URI methods
advance the same cursor. Where the source inherits from the cursor, a parser here holds one; the URI
parser has no field of its own, so its methods take the cursor.

The recognisers are proved in two steps. Each method does exactly what a function from text to
optional remaining text says (`Reading`, `IPv6Grammar.Run`, `Utf8.ReadCodePoint`, `UriReading`);
each such function is proved sound and complete for a declarative grammar that only says which
texts are concatenated and does not mention order, backtracking or a cursor (`Reading.Quad`,
`IPv6Grammar.Form`, `Utf8.PctCodePoint`, `UriGrammar`). The IPv6 value is compared with the eight
16-bit words the text spells.

**The traversal and the rule cache** (`validator.cc`, `internal/rules.cc`, `internal/rules.h`,
`internal/validation_rules.h`, `internal/cel_validation_rules.cc`). `Violations.RuleContext` is the
shared list whose elements are edited in place from an index on and reversed at the end;
`Validation.Validator` walks and `Factory.ValidatorFactory` caches. A
compiled CEL expression is a fixed function from what `this` is bound to, to a result. A message is a
finite tree over descriptors; the schema maps each type to the types of its message fields and may
be cyclic. Rule objects never change after they are built, so they are datatypes.

The methods are proved against `RuleSpec` and `WalkSpec`, which return a status and a list of
violations whose paths are already root-first: no context, no indices, no reversal. Facts about runs
are then proved of these: what a full run returns, where each violation points, how a fail-fast run
differs, when a message is valid, and when rules are always found. `Traversal` and `Reports` say what
is visited and reported in terms of the message and the results alone: fields, places, expressions.
`Concurrency` is a state machine
whose steps are the stretches in which a thread holds the factory's lock once; its runs are all
interleavings, and `SoloRun` ties them to the sequential methods. Failures of the libraries the source calls are part of the model: evaluating an
expression, reading a field or listing a map's keys may fail with any status of the library's own.

## Where the code differs from the standards and from expectation

The model follows the code. Each difference is stated as an exact condition or with a concrete input.

- The look-ahead for a dotted quad peeks at three characters, whatever they belong to. After `::` it
  takes a last group of one digit, a colon and an octet of one digit for the start of a quad, so
  `::6:1.2.3.4` is refused. It also sees past the address: `fe80::1%br.100` is refused because of the
  zone, and `a://[::1]/.well` or `http://[::1]/a.html` because of the path. The exact condition is the
  same everywhere: a standard form before any text that ends it is read whole if the look-ahead does
  not misfire there (`Form.Unblocked`) and refused otherwise (`IPv6.StandardRead`). For an address,
  bare or with a zone, this is `IPv6.StandardAccepted`, with `IPv6.AcceptedWithoutZone` for all texts
  without `%`; before a prefix length, `IPv6.StandardPrefixAccepted`; in brackets,
  `UriFacts.LiteralIff`; for a whole URI or relative reference, `UriFacts.BracketUriIff`.
- A single colon after the last group behind `::` is refused only at the end of the input, so
  `::1:/64`, `::1:%x` and `[::1:]` are accepted.
- In front of a dotted quad, `::` may stand for no group at all.
- A zone id may not follow a dotted quad in a URI, but may in an address.
- In a reg-name or zone id the two digits of a percent-encoded byte must not be followed by a third
  hexadecimal digit: `%61b` is refused (`UriFacts.HexAfterTripletRefused`). Code points up to
  0x110FFF and surrogates are taken.
- `IPvFuture` takes a lower-case `v` only.
- The status of the Any check of an item replaces the status of its CEL expressions, so an
  expression that cannot be evaluated goes unnoticed (`Validity.ItemErrorUnnoticed`;
  `Validity.ItemClean` has the exact condition).
- In an entry whose value has a violation, the violations of its key point at the value field too
  (`Validity.KeyFieldValue`).
- In fail-fast mode map rules still look at the entries after a violation of the field itself
  (`Reports.MapGoesOn`), and expressions are still evaluated behind a violation of Any rules. A
  fail-fast run may therefore report up to three violations (`FastStops.FastAtMostThree`), all of the
  first check that does not hold (`FastStops.FastStopsFirst`).
- An OK from `Add` does not always mean that everything the type needs is loaded. `Add` stores a type
  before it adds the types of its fields, and it takes a stored type as it is. There are three ways to
  an OK that leaves something out: a second `Add` after one that failed on an inner type
  (`Concurrency.SecondAddSucceeds`), an `Add` after a lookup has stored the type alone
  (`ConcurrentAdd.AddAfterLookup`), and an `Add` while another thread is still adding the type
  (`Concurrency.EarlyReturn`). What `Add` does is exact: it visits the types on field paths whose
  earlier types are not stored yet, and returns OK exactly if all of these can be built
  (`Factory.ValidatorFactory.Add`). From any cache such an OK is the whole truth exactly if the stored
  types that are reachable leave no gap (`Factory.TruthfulOk`); from a closed cache there is none, and
  OK means exactly that everything reachable can be built. Under concurrency without lazy loading and
  failed calls it is the whole truth exactly if nothing is missing that some call still waits for
  (`ConcurrentAdd.RootComplete`).

## Model

| member | source | states |
|---|---|---|
| Numerals.CalculateDecimalDigits | buf/validate/internal/lib/parser_common.h:86-92 | the result is the length of the canonical decimal numeral of the value |
| Numerals.CalculateHexadecimalDigits | buf/validate/internal/lib/parser_common.h:94-100 | the result is the length of the shortest hexadecimal numeral of the value |
| Numerals.DecOfCanonical | buf/validate/internal/lib/parser_common.h:174-177 | a digit string without leading zero is the canonical print of its value, so canonical numerals and numbers correspond one to one |
| Numerals.DecLengthMonotone | buf/validate/internal/lib/parser_common.h:180-202 | a longer canonical numeral is a greater number, which is why a numeral longer than the limit's is out of range |
| Numerals.DigitTable | buf/validate/internal/lib/parser_common.h:102-122 | a decimal digit, and a hexadecimal digit in either case, stands in the list of digits at the index of its value |
| Numerals.HexSpelling | buf/validate/internal/lib/parser_common.h:216-225 | a hexadecimal numeral has the value `n` if and only if it spells the canonical numeral of `n`, in any letter case and with any leading zeros |
| Parsing.DecimalScan | buf/validate/internal/lib/parser_common.h:193-202 | stopping the scan after one digit too many decides the same thing as reading the whole digit run: a canonical numeral not above the limit |
| Parsing.ParserCommon.Consume | buf/validate/internal/lib/parser_common.h:145-152 | succeeds exactly at a character of the class, then drops it; otherwise the cursor stays |
| Parsing.ParserCommon.ConsumeSequence | buf/validate/internal/lib/parser_common.h:154-172 | succeeds exactly when the sequence is a prefix of the text, then drops it; otherwise the cursor stays |
| Parsing.ParserCommon.ScanDecimal | buf/validate/internal/lib/parser_common.h:186-198 | the bounded digit loop ends with the value of the digits read, without 32-bit overflow, at a non-digit or one digit past the limit's length |
| Parsing.ParserCommon.ParseDecimalNumber | buf/validate/internal/lib/parser_common.h:178-206 | succeeds exactly when the maximal digit run is the canonical numeral of a number up to the limit, yields that number and drops exactly the run; otherwise the cursor stays |
| Parsing.ParserCommon.ParseHexadecimalNumber | buf/validate/internal/lib/parser_common.h:211-237 | succeeds exactly when the maximal hexadecimal run is neither too short nor too long nor too great, yields its value and drops it; otherwise the cursor stays |
| Reading.ReadDecimalSound | buf/validate/internal/lib/parser_common.h:178-206 | what is read is the canonical numeral of the value, bounded, with no digit behind it |
| Reading.ReadDecimalComplete | buf/validate/internal/lib/parser_common.h:178-206 | every canonical numeral up to the limit not followed by a digit is read back |
| Reading.ReadQuadSound | buf/validate/internal/lib/ipv4.cc:29-36 | an accepted quad is the text of four octets, nothing skipped |
| Reading.ReadQuadComplete | buf/validate/internal/lib/ipv4.cc:29-36 | every dotted quad of canonical octets not followed by a digit is read back |
| Reading.ParseOctets | buf/validate/internal/lib/ipv4.cc:30-36 | the chain of octets and dots accepts, yields and leaves exactly what the quad reader says |
| IPv4.OrOctetsAdds | buf/validate/internal/lib/ipv4.cc:37-40 | ORing the four shifted octets below bit 32 adds the quad's value and touches no higher bit |
| IPv4.IPv4Parser.ParseAddressPart | buf/validate/internal/lib/ipv4.cc:29-42 | accepts exactly a dotted quad; the bits become its base-256 value |
| IPv4.IPv4Parser.ParsePrefixLength | buf/validate/internal/lib/ipv4.cc:27 | reads a canonical number up to 32 into the prefix length |
| IPv4.IPv4Parser.ParseAddress | buf/validate/internal/lib/ipv4.cc:44 | accepts exactly when the whole text is a dotted quad, with its value |
| IPv4.IPv4Parser.ParsePrefix | buf/validate/internal/lib/ipv4.cc:46-48 | accepts exactly a dotted quad, a slash and a length, with both values |
| IPv4.AddressBijection | buf/validate/internal/lib/ipv4.cc:29-44 | a text reads as the value `v` if and only if `v` has 32 bits and the text is its canonical print |
| IPv4.PrefixBijection | buf/validate/internal/lib/ipv4.cc:27-48 | a text reads as a prefix if and only if it is the canonical print of a 32-bit address and a length up to 32 |
| IPv4.ParseIPv4Address | buf/validate/internal/lib/ipv4.cc:53-59 | for every value: that value is returned if and only if the text is its canonical print |
| IPv4.ParseIPv4Prefix | buf/validate/internal/lib/ipv4.cc:61-67 | for every prefix: that prefix is returned if and only if the text is its canonical print |
| IPv4.MaskValue | buf/validate/internal/lib/ipv4.h:33-43 | the mask is 2^32 - 2^(32-n), for n = 0 and n = 32 too, in spite of the wider shift |
| IPv4.StrictIsDivisibility | buf/validate/internal/extra_func.cc:306-307 | no host bit is set if and only if the address is divisible by 2^(32-n) |
| IPv6Grammar.PeekIs | buf/validate/internal/lib/ipv6.cc:42-50 | the look-ahead fires exactly on a text of at least seven characters that does not start with a colon and has a dot among its second to fourth characters |
| IPv6Grammar.QuadPeek | buf/validate/internal/lib/ipv6.cc:42-50 | the peek takes a group and a colon before a quad for a quad exactly if the group and the first octet have one digit each |
| IPv6Grammar.RunSound | buf/validate/internal/lib/ipv6.cc:69-114 | from any state the loop can be in, what it accepts is one of the four forms, spelled by what was consumed, and the look-ahead did not misfire on it |
| IPv6Grammar.ReadAddressSound | buf/validate/internal/lib/ipv6.cc:69-114 | an accepted address part is the text of a well-formed form, followed by what stays unread |
| IPv6Grammar.ReadAddressComplete | buf/validate/internal/lib/ipv6.cc:69-114 | every well-formed form that the look-ahead does not misread, followed by a character that cannot extend it, is accepted and nothing more is consumed |
| IPv6Grammar.FormUnique | buf/validate/internal/lib/ipv6.cc:69-114 | no text spells two forms |
| IPv6Value.PushGroup | buf/validate/internal/lib/ipv6.cc:83-84 | shifting by 16 in 128 bits and ORing a group appends a digit in base 2^16: nothing overlaps, nothing is lost |
| IPv6Value.AssembleGroups | buf/validate/internal/lib/ipv6.cc:93-110 | ORing the shifted groups before `::` with the groups after it gives the eight words with zeros in between |
| IPv6Value.AssembleQuad | buf/validate/internal/lib/ipv6.cc:60-79 | the quad written straight into the bits and the groups shifted by 32 do not overlap: their OR is the eight words' value |
| IPv6Value.AssembleFullQuad | buf/validate/internal/lib/ipv6.cc:60-79 | the same for six groups and a quad without `::` |
| IPv6.QuadBranch | buf/validate/internal/lib/ipv6.cc:75-81 | at a peeked quad the loop fails if no quad is read; otherwise the result is final and its value is that of the form's words |
| IPv6.GroupBranch | buf/validate/internal/lib/ipv6.cc:82-85 | the group branch keeps the loop invariant, with one more group |
| IPv6.DoubleBranch | buf/validate/internal/lib/ipv6.cc:86-98 | the `::` branch keeps the loop invariant: the groups so far move to their final position |
| IPv6.EndBranch | buf/validate/internal/lib/ipv6.cc:105-113 | at the end of the loop the address is accepted exactly with `::` or eight groups, and the OR is the value of its words |
| IPv6.IPv6Parser.ConsumeZoneId | buf/validate/internal/lib/ipv6.cc:29-40 | succeeds exactly on a nonempty rest without NUL, and then consumes all of it |
| IPv6.IPv6Parser.ParseDotted | buf/validate/internal/lib/ipv6.cc:52-65 | with the low 32 bits clear, accepts exactly a dotted quad and adds its value to the bits |
| IPv6.IPv6Parser.ConsumePrefixLength | buf/validate/internal/lib/ipv6.cc:67 | reads a canonical number up to 128 into the prefix length |
| IPv6.IPv6Parser.ParseAddressPart | buf/validate/internal/lib/ipv6.cc:69-114 | accepts, and leaves unread, exactly what the grammar's reader does, and the 128 bits are the value of the form's eight words |
| IPv6.IPv6Parser.ParseAddress | buf/validate/internal/lib/ipv6.cc:116-118 | accepts exactly the texts of a form, alone or with a zone, on which the look-ahead for a quad does not misfire, with the form's value |
| IPv6.IPv6Parser.ParsePrefix | buf/validate/internal/lib/ipv6.cc:120-122 | accepts exactly the texts of a form the look-ahead does not misread, a slash and a length up to 128, with both values |
| IPv6.ParseIPv6Address | buf/validate/internal/lib/ipv6.cc:127-133 | a value is returned exactly for the texts of a form, alone or with a zone, on which the look-ahead does not misfire, and it is that of the eight words spelled |
| IPv6.ParseIPv6Prefix | buf/validate/internal/lib/ipv6.cc:135-141 | a prefix is returned exactly for the texts of a form that is not misread, a slash and a length, with the value and length spelled |
| IPv6.AddressTextUnique | buf/validate/internal/lib/ipv6.cc:116-118 | form and zone are determined by the text, so the value is too |
| IPv6.PrefixTextUnique | buf/validate/internal/lib/ipv6.cc:120-122 | form and length are determined by the text |
| IPv6.StandardRead | buf/validate/internal/lib/ipv6.cc:42-114 | a form of section 2.2 of RFC 4291 before any text that ends it is read whole if the look-ahead does not misfire there, and refused otherwise |
| IPv6.StandardAccepted | buf/validate/internal/lib/ipv6.cc:116-118 | a standard form, alone or with a zone, is accepted, in any reading, if and only if the look-ahead does not misfire; alone, if and only if it is not a `::` form whose last group and first octet have one digit each |
| IPv6.StandardPrefixAccepted | buf/validate/internal/lib/ipv6.cc:120-122 | a standard form with a prefix length is accepted, in any reading, if and only if it is not misread |
| IPv6.MisreadExample | buf/validate/internal/lib/ipv6.cc:42-50 | `::6:1.2.3.4` is a standard text and is refused |
| IPv6.ZoneMisreadExample | buf/validate/internal/lib/ipv6.cc:42-50 | `fe80::1%br.100` is a standard address with a zone and is refused |
| IPv6.AcceptedWithoutZone | buf/validate/internal/lib/ipv6.cc:69-118 | a text without `%` is accepted if and only if it is one of the four standard forms and not misread by the look-ahead |
| IPv6.SlashUnblocked | buf/validate/internal/lib/ipv6.cc:120-122 | before `/` and a length the look-ahead misfires on exactly the misread forms; a single trailing colon is tolerated |
| IPv6.PrintRoundTrip | buf/validate/internal/lib/ipv6.cc:127-133 | every 128-bit value printed as eight hexadecimal groups, in any letter case and with leading zeros, is accepted and has that value |
| IPv6.ValueBound | buf/validate/internal/lib/ipv6.cc:69-114 | every form has eight words and a value of 128 bits |
| IPv6.StrictIsDivisibility | buf/validate/internal/extra_func.cc:318-319 | no host bit is set if and only if the address is divisible by 2^(128-n), n = 0 and n = 128 included |
| Utf8.EncodeDecode | buf/validate/internal/lib/uri.cc:413-454 | the shortest encoding of every code point up to 0x110FFF passes the byte conditions and decodes to it |
| Utf8.DecodeEncode | buf/validate/internal/lib/uri.cc:413-454 | bytes that pass the conditions are the shortest encoding of a code point up to 0x110FFF: nothing overlong |
| Utf8.TopBits | buf/validate/internal/lib/uri.cc:438 | the bit test for a continuation byte is the range 0x80 to 0xBF |
| Utf8.CodePointSound | buf/validate/internal/lib/uri.cc:413-454 | a group that is taken spells the shortest encoding of a code point, with no hexadecimal digit behind it |
| Utf8.CodePointComplete | buf/validate/internal/lib/uri.cc:413-454 | every percent-encoded shortest encoding without a hexadecimal digit behind it is taken whole |
| Utf8.CodePointUnique | buf/validate/internal/lib/uri.cc:413-454 | a group spells only one code point |
| Utf8.ParsePercentEncoded | buf/validate/internal/lib/uri.cc:401-411 | accepts exactly a percent sign and a run of two hexadecimal digits, yields the byte, and restores the cursor otherwise |
| Utf8.ConsumePercentEncodedUTF8CodePoint | buf/validate/internal/lib/uri.cc:413-454 | takes exactly the code points read, byte by byte, and restores the cursor otherwise |
| UriFacts.CodePointIff | buf/validate/internal/lib/uri.cc:413-454 | a group is taken if and only if some percent-encoded code point without a hexadecimal digit behind it starts here |
| UriFacts.Utf8IsEncoded | buf/validate/internal/lib/uri.cc:259-274 | a reg-name or zone that is taken is one of RFC 3986 as well |
| CharLists.Classes | buf/validate/internal/lib/uri.cc:29-46 | membership in each character class is membership in the characters RFC 3986 lists for it |
| UriFacts.HexAfterTripletRefused | buf/validate/internal/lib/uri.cc:401-411 | `%61b` is a reg-name of RFC 3986 and is refused |
| Uri.ConsumePercentEncoded | buf/validate/internal/lib/uri.cc:392-399 | takes exactly a percent triplet, otherwise the cursor stays |
| Uri.ConsumeScheme | buf/validate/internal/lib/uri.cc:103-115 | takes exactly a scheme before a colon, otherwise the cursor stays |
| Uri.ConsumeUserInfo | buf/validate/internal/lib/uri.cc:145-157 | takes exactly a userinfo before `@`, otherwise the cursor stays |
| Uri.ConsumeRegName | buf/validate/internal/lib/uri.cc:259-274 | takes the longest reg-name if a colon or the end of the authority follows, otherwise the cursor stays |
| Uri.ConsumePort | buf/validate/internal/lib/uri.cc:166-178 | takes all digits if the authority ends there, otherwise the cursor stays |
| Uri.ConsumeZoneId | buf/validate/internal/lib/uri.cc:231-237 | takes the longest zone and reports whether it is not empty |
| Uri.ConsumeIPv6Address | buf/validate/internal/lib/uri.cc:196-229 | the loop without values accepts, and leaves before any zone, exactly what the address parser's loop does |
| Uri.ConsumeIPvFuture | buf/validate/internal/lib/uri.cc:239-257 | takes exactly an IPvFuture with lower-case `v`, otherwise the cursor stays |
| Uri.ConsumeIPLiteral | buf/validate/internal/lib/uri.cc:180-194 | takes a bracketed IPv6 address or else a bracketed IPvFuture, otherwise the cursor stays |
| Uri.ConsumeHost | buf/validate/internal/lib/uri.cc:159-164 | takes an IP literal or else a reg-name |
| Uri.ConsumeAuthority | buf/validate/internal/lib/uri.cc:117-136 | takes exactly the authority read, up to its end, otherwise the cursor stays |
| Uri.ConsumePathAbempty | buf/validate/internal/lib/uri.cc:278-288 | takes all slash-led segments if the path ends there, otherwise the cursor stays |
| Uri.ConsumePathAbsolute | buf/validate/internal/lib/uri.cc:290-304 | takes exactly the absolute path read, otherwise the cursor stays |
| Uri.ConsumePathNoscheme | buf/validate/internal/lib/uri.cc:306-318 | takes exactly the path whose first segment has no colon, otherwise the cursor stays |
| Uri.ConsumePathRootless | buf/validate/internal/lib/uri.cc:320-332 | takes exactly the rootless path, otherwise the cursor stays |
| Uri.ConsumeHierPart | buf/validate/internal/lib/uri.cc:67-74 | takes the first of the four alternatives that fits, otherwise the cursor stays |
| Uri.ConsumeRelativePart | buf/validate/internal/lib/uri.cc:94-101 | the same for a relative part |
| Uri.ConsumeQuery | buf/validate/internal/lib/uri.cc:364-376 | takes a query up to `#` or the end, otherwise the cursor stays |
| Uri.ConsumeFragment | buf/validate/internal/lib/uri.cc:378-390 | takes a fragment up to the end, otherwise the cursor stays |
| Uri.ConsumeUri | buf/validate/internal/lib/uri.cc:50-65 | accepts exactly what the reader of a URI does, and restores the cursor otherwise |
| Uri.ConsumeRelativeRef | buf/validate/internal/lib/uri.cc:78-92 | accepts exactly what the reader of a relative reference does, and restores the cursor otherwise |
| UriReading.HostComplete | buf/validate/internal/lib/uri.cc:159-274 | every host of the grammar before a colon or the end of an authority is taken whole |
| UriReading.AuthorityComplete | buf/validate/internal/lib/uri.cc:117-178 | every authority of the grammar is taken whole: looking for a userinfo first loses none |
| UriReading.AuthoritySound | buf/validate/internal/lib/uri.cc:117-178 | what is taken as an authority derives from the grammar and ends at `/`, `?`, `#` or the end |
| UriReading.PartComplete | buf/validate/internal/lib/uri.cc:67-101 | the ordered choice of path forms takes every hier-part and relative-part of the grammar whole |
| UriReading.UriIff | buf/validate/internal/lib/uri.cc:50-74 | greedy descent with backtracking succeeds if and only if the whole text derives from `URI`, and then leaves nothing unread |
| UriReading.RelativeRefIff | buf/validate/internal/lib/uri.cc:78-101 | the same for `relative-ref` |
| Uri.ValidateUri | buf/validate/internal/lib/uri.cc:459-462 | true if and only if the text derives from `URI` |
| Uri.ValidateUriReference | buf/validate/internal/lib/uri.cc:464-467 | true if and only if the text derives from `URI` or from `relative-ref` |
| Uri.UriOrRelative | buf/validate/internal/lib/uri.cc:76 | no text is both, so the ordered choice loses nothing |
| UriFacts.WithoutBracket | buf/validate/internal/lib/uri.cc:48-101 | a text without `[` is a URI, or a relative reference, if and only if it derives from the productions of Appendix A of RFC 3986 with a reg-name for the host, limited to percent-encoded UTF-8 with no hexadecimal digit behind a triplet |
| UriFacts.LiteralIff | buf/validate/internal/lib/uri.cc:180-229 | a standard form in brackets, alone or with a zone, is taken as an IP literal if and only if the look-ahead does not misfire on it and what follows the bracket, and no zone follows a quad |
| UriFacts.BracketUriIff | buf/validate/internal/lib/uri.cc:48-101 | a text that is a URI or relative reference in every part but its bracketed standard host is one if and only if that host is accepted before what follows it |
| UriFacts.WellKnownPathRefused | buf/validate/internal/lib/uri.cc:203-210 | `a://[::1]/.well` has a scheme, an address and a path of the grammar and is refused: one instance of the condition in `UriFacts.BracketUriIff` |
| UriFacts.TrailingColonAccepted | buf/validate/internal/lib/uri.cc:218-222 | `[::1:]` is accepted as an IP literal |
| ExtraFunc.IsHostname | buf/validate/internal/extra_func.cc:174-194 | true if and only if the text, of 1 to 253 characters, is dot-joined labels of letters, digits and inner hyphens, 1 to 63 long, the last not all digits, with an optional final dot |
| ExtraFunc.JoinSplit | buf/validate/internal/extra_func.cc:180 | splitting dot-joined labels gives the labels back |
| ExtraFunc.IsPort | buf/validate/internal/extra_func.cc:238-257 | true if and only if the text is the canonical decimal of a number up to 65535 |
| ExtraFunc.IsIpv4 | buf/validate/internal/extra_func.cc:207-209 | true if and only if the text is the print of some 32-bit value |
| ExtraFunc.IsIpv6 | buf/validate/internal/extra_func.cc:211-213 | true if and only if the text is a form, alone or with a zone, on which the look-ahead does not misfire |
| ExtraFunc.IsIp | buf/validate/internal/extra_func.cc:215-217 | true if and only if the text is one or the other |
| ExtraFunc.Decompose | buf/validate/internal/extra_func.cc:264-286 | however the text is composed of host and port, the last `]` and the last `:` find exactly that host and port, also with `]` and `:` in a zone: the decomposition is unique |
| ExtraFunc.IsHostAndPort | buf/validate/internal/extra_func.cc:259-286 | true if and only if some decomposition into `[h]:p` or `g:p` exists or, unless a port is required, the text is `[h]` or `g`, where `h` is a text `IsIpv6` accepts, `g` a hostname or IPv4 text and `p` a port |
| ExtraFunc.IsIpv4Prefix | buf/validate/internal/extra_func.cc:298-308 | true if and only if the text is the print of a prefix and, if strict, its address is divisible by 2^(32-n) |
| ExtraFunc.IsIpv6Prefix | buf/validate/internal/extra_func.cc:310-320 | true if and only if the text is a form that is not misread, a slash and a length and, if strict, the value is divisible by 2^(128-n) |
| ExtraFunc.IsIpPrefix | buf/validate/internal/extra_func.cc:322-324 | true if and only if the text is a prefix of either kind |
| Violations.RuleContext.AppendFieldPathElement | buf/validate/internal/validation_rules.h:63-67 | exactly the violations from the index on get the element appended to their field path |
| Violations.RuleContext.AppendRulePathElement | buf/validate/internal/validation_rules.h:69-74 | exactly the violations from the index on get the elements appended to their rule path |
| Violations.RuleContext.SetFieldValue | buf/validate/internal/validation_rules.h:76-80 | exactly the violations from the index on point at the field |
| Violations.RuleContext.SetRuleValue | buf/validate/internal/validation_rules.h:82-86 | exactly the violations from the index on point at the rule field |
| Violations.RuleContext.SetForKey | buf/validate/internal/validation_rules.h:88-92 | exactly the violations from the index on are marked as being for a key |
| Violations.RuleContext.Finalize | buf/validate/internal/validation_rules.h:94-107 | both paths of every violation are reversed |
| Violations.TurnPrefixed | buf/validate/internal/validation_rules.h:63-107 | appending an element before the reversal is putting it in front after the reversal |
| Violations.TurnRulePrefixed | buf/validate/internal/validation_rules.h:69-107 | appending reversed rule elements before the reversal is putting them in front, in order, after it |
| Violations.TurnTwice | buf/validate/internal/validation_rules.h:94-107 | reversing twice changes nothing |
| Rules.ProcessRule | buf/validate/internal/cel_validation_rules.cc:29-71 | adds the violation of a false or nonempty string result, none otherwise; returns the status of a failed evaluation, and InvalidArgument for an error or another result |
| Rules.ValidateCel | buf/validate/internal/cel_validation_rules.cc:136-159 | adds the violations of the expressions in order, each pointing at its rule field, up to the first error or, in fail-fast mode, the first violation |
| Reports.ExprsExact | buf/validate/internal/cel_validation_rules.cc:29-159 | exactly the expressions up to the one that stops the run are evaluated; each violated one among them gives one violation with its id, message, turned rule path and rule field, in order; the status is the error of the last one |
| Reports.FastExprsOne | buf/validate/internal/cel_validation_rules.cc:142-156 | in fail-fast mode a list of expressions reports at most one violation, that of an expression before which all pass |
| Rules.ValidateAny | buf/validate/internal/rules.cc:336-392 | adds at most one violation for the allow list and one for the block list, or rejects a message that is not an Any |
| Reports.AnyReports | buf/validate/internal/rules.cc:342-391 | for an Any: `any.in` exactly if the type URL is outside a nonempty allow list, then `any.not_in` exactly if it is in the block list, each with its message, rule path, field and value |
| Rules.ValidateField | buf/validate/internal/rules.cc:90-185 | adds exactly the specified outcome of a field rule, behind unchanged earlier violations; a field that cannot be read ends it with the library's status |
| Reports.MissingReports | buf/validate/internal/rules.cc:97-156 | a missing value is passed over or reported as required; for a single field being required comes first, for a collection being passed over |
| Reports.PresentReports | buf/validate/internal/rules.cc:158-185 | a present single field reports its Any violations first and then its expressions' in order, each under the field |
| Reports.CollectionReports | buf/validate/internal/rules.cc:97-139 | a nonempty collection reports exactly its expressions' violations, each under the field |
| Rules.ValidateEnum | buf/validate/internal/rules.cc:187-212 | the same for an enum rule |
| Reports.EnumReports | buf/validate/internal/rules.cc:187-212 | an undefined number is reported as `enum.defined_only` behind the field's own violations, in fail-fast mode only if there are none |
| Rules.ValidateRepeated | buf/validate/internal/rules.cc:214-255 | the same for a repeated rule and its items |
| Reports.ItemsReport | buf/validate/internal/rules.cc:223-253 | a full run reports every item that is not passed over, item by item |
| Rules.ValidateItem | buf/validate/internal/rules.cc:228-249 | the edits from the item's index on amount to the item's outcome under `[i]` and `repeated.items` |
| Rules.ValidateEntry | buf/validate/internal/rules.cc:273-331 | the edits from the entry's two indices on amount to the entry's outcome under its key, `map.keys` and `map.values`; the value is the one found by its key |
| Rules.ValidateMap | buf/validate/internal/rules.cc:257-334 | adds exactly the specified outcome of a map rule, behind unchanged earlier violations; keys that cannot be listed end it with the library's status |
| Reports.EntriesReport | buf/validate/internal/rules.cc:272-332 | a full run reports every entry, entry by entry |
| Reports.MapGoesOn | buf/validate/internal/rules.cc:259-262 | in fail-fast mode a violation of the map field does not keep its first entry from being checked and reported |
| Rules.ValidateOneof | buf/validate/internal/rules.cc:394-406 | the same for a oneof rule |
| Reports.OneofReports | buf/validate/internal/rules.cc:394-406 | one violation on the oneof exactly if it is required and no member is set |
| Rules.ValidateMessageOneof | buf/validate/internal/rules.cc:408-435 | the same for a message oneof rule |
| Reports.MessageOneofReports | buf/validate/internal/rules.cc:408-435 | one violation exactly if two members are set, or none is and one is required, each with its message |
| RulePaths.ItemsPaths | buf/validate/internal/rules.cc:236-248 | every item violation has one field element, the field's, and a rule path that starts with `repeated.items` |
| RulePaths.ItemPaths | buf/validate/internal/rules.cc:228-249 | an item's violation has the subscripted field as its path and `repeated.items` followed by the path of the inner rule's own violation |
| RulePaths.EntryViolationPaths | buf/validate/internal/rules.cc:283-317 | the key violations come first, marked, under `map.keys` followed by the rule's own path, the value violations after them under `map.values` |
| RulePaths.EntriesPaths | buf/validate/internal/rules.cc:272-332 | every entry violation has one field element, the field's, and a rule path that starts with `map.keys` if it is for a key and with `map.values` otherwise |
| RulePaths.OneElementPerRule | buf/validate/internal/rules.cc:90-334 | every violation of a rule on a field has exactly one field path element, that field's, whichever kind of rule it is |
| Reports.ElementNames | buf/validate/internal/rules.h:150-162 | a field's element is the one with its number, its type and its name, extensions by full name in brackets |
| Reports.KeyElement | buf/validate/internal/rules.h:180-219 | a map entry's element carries the key and both types; there is none exactly for the key types no map has |
| Reports.FieldSeen | buf/validate/internal/rules.cc:140 | a field is set exactly if the message lists it, and rules see the content listed first, or the default |
| Factory.ClosedReachable | buf/validate/validator.cc:136-164 | in a closed cache every type reachable from a loaded type, over cycles too, is loaded |
| Factory.ClosedHidesNothing | buf/validate/validator.cc:138-142 | in a closed cache, all that adding a type visits can be built if and only if all that is reachable from it can |
| Factory.StoredVisits | buf/validate/validator.cc:138-142 | adding a stored type visits that type alone |
| Factory.TruthfulOk | buf/validate/validator.cc:136-164 | after an OK from any cache, everything reachable is loaded if and only if every reachable type was loaded before or is visited, and if and only if each field of a reachable type stored before was loaded before or is visited |
| Factory.ValidatorFactory.Add | buf/validate/validator.cc:136-164 | the cache and status are those of adding as a function; from any cache, over cyclic schemas: OK if and only if every visited type can be built, otherwise the status of a visited type that cannot; stores visited types only, on OK all of them, as building gives them, and changes no entry; stays closed wherever it was; from a closed cache OK if and only if everything reachable can be built |
| Factory.AddTypeKeepsPromise | buf/validate/validator.cc:136-164 | the same of adding as a function, for every cache and type |
| Factory.ValidatorFactory.GetMessageRules | buf/validate/validator.cc:166-188 | returns the stored rules; for a type that is not stored, nothing without lazy loading, and otherwise what building gives, which it stores; changes nothing else |
| Factory.ValidatorFactory.AnswersAre | buf/validate/validator.cc:166-188 | with lazy loading every type is answered, with what a fresh build gives; without, exactly the stored types are |
| Validation.Validator.ValidateMessage | buf/validate/validator.cc:19-36 | adds exactly the outcome of walking the message, behind unchanged earlier violations |
| Validation.Validator.ValidateFields | buf/validate/validator.cc:38-111 | adds exactly the outcome of walking the children: singular, repeated and map fields, each child under its own path element |
| Traversal.ChildIff | buf/validate/validator.cc:43-108 | a message is visited as a child, under an element, if and only if it is a value of a set message field without one of the three ignores, and the element is that of the field with its index or key |
| Traversal.ChildrenInPlaces | buf/validate/validator.cc:43-108 | the children come field by field and value by value, each place once |
| Validation.Validator.Validate | buf/validate/validator.cc:113-123 | returns the walk's status if it failed, otherwise its violations with root-first paths |
| WalkSpec.FieldsBelow | buf/validate/validator.cc:43-109 | every child that the traversal visits is a smaller tree |
| WalkFacts.FullRun | buf/validate/validator.cc:19-123 | a successful full run returns exactly each message's own violations followed by its children's, in order, each child's under its element |
| WalkFacts.PathsAreRoutes | buf/validate/validator.cc:65-107 | every reported violation is an own violation at the end of a route, and its path is that route, one element per nesting level, then its own path |
| WalkFacts.RoutesAreReported | buf/validate/validator.cc:65-107 | conversely every own violation at the end of any route is reported under that route |
| FailFast.FastRule | buf/validate/internal/rules.cc:90-435 | when a rule succeeds in full, its fail-fast run succeeds with a subsequence of its violations; violations of map keys are compared without their field value |
| FailFast.FailFastAgrees | buf/validate/validator.cc:29-107 | when the full run succeeds, so does the fail-fast run: a subsequence of the violations with the same paths, the same first one, and none exactly if the full run has none; violations of map keys are compared without their field value, all others whole |
| FastStops.FastStopsFirst | buf/validate/validator.cc:29-107 | a fail-fast run that succeeds reports the violations of the first check in the order of the traversal that does not hold, under its route, and nothing else; every check before it holds |
| FastStops.FastAtMostThree | buf/validate/validator.cc:29-107 | it reports at most three violations |
| FastStops.RuleAtMost | buf/validate/internal/rules.cc:83-435 | in fail-fast mode a rule reports at most three violations |
| FastStops.FirstItem | buf/validate/internal/rules.cc:223-253 | items are checked up to the first that does not hold, and only that one is reported |
| FastStops.FirstEntry | buf/validate/internal/rules.cc:272-332 | entries are checked up to the first that does not hold, and only that one is reported |
| Loading.LoadedWalk | buf/validate/validator.cc:19-111 | with a closed cache and no lazy loading, no typed message of a loaded type ends in a missing or unbuildable type, at any depth |
| Loading.AddThenValidate | buf/validate/validator.cc:113-188 | after an `Add` that returned OK, validation without lazy loading fails only through a rule |
| Loading.BuiltWalk | buf/validate/validator.cc:19-111 | if the rules of every message of the tree are found and built, every status comes from a rule |
| Loading.NeverMissing | buf/validate/validator.cc:19-111 | if every type is answered, no run ends with missing rules |
| Loading.ValidateLazily | buf/validate/validator.cc:113-188 | with lazy loading, from any cache, validation never ends with missing rules, and only rules make it fail if all types can be built |
| Validity.ItemClean | buf/validate/internal/rules.cc:223-253 | an item adds nothing and has status OK exactly if its expressions pass or, with Any rules, none is violated before the first error and the type URL is admitted |
| Validity.IgnoredIff | buf/validate/internal/rules.cc:34-51 | an item, key or value is skipped exactly if empty values are passed over and it is false, a zero, or an empty string or byte string; they are passed over on request and where a field outside map entries tracks presence |
| Validity.RuleClean | buf/validate/internal/rules.cc:83-435 | a rule adds nothing and has status OK exactly if its constraint, stated on the message alone, holds |
| Validity.CleanIffValid | buf/validate/validator.cc:19-123 | a run, full or fail-fast, succeeds without violations if and only if every message of the tree has rules and satisfies them |
| Validity.ItemErrorUnnoticed | buf/validate/internal/rules.cc:231-235 | an item with an admitted type URL passes although its first expression cannot be evaluated |
| Validity.KeyFieldValue | buf/validate/internal/rules.cc:292-316 | a key violation points at the key exactly if the value of the same entry has no violation |
| Concurrency.StepSafe | buf/validate/validator.cc:136-188 | every step of every thread keeps the cache what building gives, one build per type, and lookups right; entries only get added |
| Concurrency.RunSafe | buf/validate/validator.cc:136-188 | under every interleaving each type is built at most once and every lookup returns what building its type gives |
| Concurrency.PublishedForever | buf/validate/validator.cc:136-188 | a published entry never changes, however the run goes on |
| Concurrency.QuietClosed | buf/validate/validator.cc:136-164 | without lazy loading, once all calls have returned and none has failed, the cache is closed, whatever the interleaving |
| SoloRun.AddRunsToItsEnd | buf/validate/validator.cc:136-164 | from any moment of any run, a thread that calls `Add` and runs alone returns, with the status and the cache of the sequential method |
| SoloRun.LookupRunsToItsEnd | buf/validate/validator.cc:166-188 | the same of a lookup: a stored type, none without lazy loading, or the built and stored rules |
| ConcurrentAdd.AddReturnsTruthfully | buf/validate/validator.cc:136-164 | under every interleaving, an `Add` that returned OK has its type loaded, and one that returned an error gives that of a stored type reachable from its own that cannot be built |
| ConcurrentAdd.RootComplete | buf/validate/validator.cc:136-164 | without lazy loading and failed calls, at any moment of any run, everything reachable from a loaded type is loaded if and only if every field of a reachable type that some call still waits for is loaded |
| Concurrency.EarlyReturn | buf/validate/validator.cc:138-142 | an `Add` during another thread's `Add` of the type returns OK although a type it needs is not loaded; `ConcurrentAdd.RootComplete` has the exact condition |
| ConcurrentAdd.AddAfterLookup | buf/validate/validator.cc:138-188 | with lazy loading, an `Add` after a lookup of the type returns OK although a type it needs is not loaded; `Factory.TruthfulOk` has the exact condition |
| Concurrency.SecondAddSucceeds | buf/validate/validator.cc:138-152 | an `Add` that failed on an inner type returns OK when called again; `Factory.TruthfulOk` has the exact condition |

## Left out

- CEL parsing, compilation and evaluation, the time of day and regular expressions: a compiled expression is a fixed function to a result or a failure.
- Parsing.ParserCommon.ParseDecimalNumber: limits up to 255 only; the source instantiates it with 32, 128 and 255.
- Parsing.ParserCommon.ParseHexadecimalNumber: limits up to 0xFFFF only; the source instantiates it with 0xFF and 0xFFFF.
- Encodings of strings: a character of the model stands for a byte of the source; no recogniser looks above ASCII except to pass zone ids through.
- Library calls `absl::SimpleAtoi`, `absl::StrSplit` and `rfind` are functions with the meaning their documentation gives them.
- Compile-time character ranges: character predicates with the same members.
- Building rules from field and message options (`internal/field_rules.cc`, `internal/message_rules.cc`): each type's rule list, or the error of building it, is given.
- A map entry type without key or value field: a descriptor of a map has both.
- What looking a map value up by its key finds when the key occurs twice: an entry carries the value found, which may be any.
- Field values that do not have the kind their descriptor announces: the traversal passes over a non-message value in a message field.
- Field numbers and types of the elements of rule paths: only their names are kept.
- `isEmail`, `isNan`, `isInf`, `unique`, `getField`, `startsWith` and the registration of CEL functions.
- Addresses of entries in the hash map, arena memory and changes to the configuration while calls are running: an answer is a value and the configuration is fixed.
- Concurrency.QuietClosed: says nothing about runs with lazy loading or a failed `Add`; there the cache need not be closed, as Concurrency.SecondAddSucceeds and ConcurrentAdd.AddAfterLookup show, and Factory.TruthfulOk says for a single call what is loaded.
- ConcurrentAdd.RootComplete: says nothing about runs with lazy loading or a failed `Add`, where stored types may have fields that no call waits for.
- WalkFacts.PathsAreRoutes: a map entry whose key type cannot be a map key gives a status instead of a path, so only successful runs are covered.
- The conformance runner, examples and build files.
