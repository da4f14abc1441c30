# Verification of fep3 participant core logic

This project models five parts of the fep3 participant library in Dafny and proves what they are
relied on for.

- **URLs** (`Url*.dfy`). The scanner and printer of `fep3::helper::Url` for the syntax of section 3 of
  RFC 3986. `UrlText` says what a URL text means: how it is taken apart, and how fields are printed.
  `UrlChars`, `UrlNumbers`, `UrlIpv6`, `UrlPercent`, `UrlPath` and `UrlQuery` hold the recognisers and
  codecs, each as a specification and as the loop that computes it. `UrlReader` is the parser and
  printer that advance positions, `UrlObject` the lazily parsed class with its two flags. The laws:
  `UrlGrammar` says which texts are accepted and as what they are read, `UrlDotSegments` what '.' and
  '..' do to a path, `UrlRoundTrip` that what is printed is read back and that printing is a canonical
  form, and `UrlSetters` what any sequence of setter calls leaves behind, and that it is readable
  exactly when its user info needs no percent-coding.
- **Clock events** (`Clock*.dfy`, `DiscreteClocks.dfy`, `ContinuousClocks.dfy`). The event sink registry
  as a state machine over the atomic steps of one trigger, one worker thread for each sink, the latch
  and the mutex (`ClockRegistry`), its runs (`ClockBarrier`), what happens when sinks come or leave between
  the reset of the latch and dispatch (`ClockGap`), and the list its methods change (`ClockSinks`, tied to
  the state machine by `ClockLists`); and the two kinds of clocks with the traces they send.
- **Service discovery** (`Lssdp*.dfy`). The SSDP messages of services and finders, their parser with
  index arithmetic and bounded buffers, and the two receiving loops, up to whole runs of deliveries.
  `LssdpTexts` spells the messages out, header by header, and `LssdpSetup` connects them to the URLs that
  services and finders are created from.
- **Property trees** (`Property*.dfy`). Order-independent equality of trees, and nodes changed in place.
- **Sample reception** (`Data*.dfy`). Draining an incoming queue into a bounded backlog: one update
  (`DataReception`), whole runs (`DataRuns`), and the stream types samples are received under (`DataTypes`).

Main results: `UrlRoundTrip.ParseBuild`, `UrlRoundTrip.BuildParseBuild`, `UrlRoundTrip.BuildSucceeds`,
`UrlGrammar.ParseExact`, `UrlSetters.RunExact`, `UrlSetters.SetValueIsReadBack`, `UrlDotSegments.ParentTakesBack`,
`UrlIpv6.Ipv6Exact`, `UrlIpv6.MixedExact`, `ClockBarrier.ReturnIsBarrier`, `ClockBarrier.NoOvertaking`,
`ClockBarrier.TriggerReturns`, `ClockGap.LatchExact`, `ContinuousClocks.ContinuousClock.Session`,
`DiscreteClocks.SessionIsReplayed`, `DiscreteClocks.SessionIsSent`, `LssdpMessages.MessageIsReadBack`,
`LssdpTexts.SentText`, `LssdpPackets.ParseLineExact`, `LssdpDiscovery.EventsExact`,
`LssdpSetup.SetUpIsObserved`, `PropertyTrees.IsEqualExact`, `PropertyTrees.PathsExact`,
`PropertyTrees.SymmetryExact`, `PropertyNodes.PropertyNode.CopyDeepFrom`, `DataRuns.RunExact`,
`DataRuns.RunIsGood` and `DataTypes.ArriveTypesExact`.

Where the program changes things in place, so does the model: each class method and each loop is proved
equal to a function of its inputs or of the old state, and the laws are proved about those functions.

`dafny verify dfyconfig.toml` checks the project.

## How the model reads the program

- Texts are sequences of characters. The encoders of the URL printer index a table with a plain `char`
  and are undefined for bytes from 0x80; `AsciiUrl` is the domain on which they are defined.
- A C++ exception is a `Result` with an error; the errors of the URL code are told apart as far as the
  program's messages do.
- Clocks and samples carry unbounded integers as times. Digit runs in URLs are read modulo 2^32, as the
  32-bit arithmetic of `is_uint` does.
- Locked methods are atomic steps. Sinks do not throw, and do not unregister themselves from a callback.
  Whether a weak pointer can be locked is part of the state or a parameter.
- The network is delivery of texts: what `select` and `recvfrom` deliver before a receiving loop ends is
  the sequence given to it. `a_util::strings::format` is not part of this model; it is taken to replace
  the single `%s` of a template.

Places where the program and its own comments disagree; the model follows the program:

- `ContinuousClock::setNewTime` is documented to reset when the new time is smaller
  (`include/fep3/components/clock/clock_base.h:266-284`); it does not, and the old time it reads is unused.
- `setNewTime` of both clocks is documented to reset on its first call; within a session `start` has
  already reset the clock, so that the first call is no exception (`SessionIsSent`).
- `is_valid_ipv6` takes at most 39 characters, so that the longest addresses with an IPv4 tail are refused, and
  up to six groups next to a '::' in front of such a tail, one more than section 2.2 of RFC 4291 (`MixedExact`).
- `lssdpcpp.h` says that a service only answers searches for its device type; device types play no part
  (`AnswersExact`). With a device filter, byebye messages never arrive (`FilterHidesByeBye`).
- `DataItemQueue::setCapacity` is documented to turn a capacity of 0 into 1; it takes 0 as it is, and only
  the backlog in front of it corrects it.
- `Url::build_url` clears `m_built` where one would expect it to set it (`3rdparty/lssdp-cpp/src/url/cxx_url.cpp:912`):
  the text is printed again on every call, and still always renders the current value.


## Model

| member | source | states |
|---|---|---|
| `UrlRoundTrip.ParseBuild` | 3rdparty/lssdp-cpp/src/url/cxx_url.cpp:696-914 | The central law: every well-formed value (lower-case scheme; registered-name, IPv4-shaped or empty host; normalised path that fits the host; named query pairs) can be printed, and if its text has at most 8000 characters, parsing it gives back exactly that value |
| `UrlRoundTrip.RoundTripExact` | 3rdparty/lssdp-cpp/src/url/cxx_url.cpp:696-914 | For every ASCII value without an IPv6 host that can be printed within 8000 characters, the round trip holds if and only if the value is well-formed |
| `UrlRoundTrip.BuildParseBuild` | 3rdparty/lssdp-cpp/src/url/cxx_url.cpp:805-914 | Canonical form: whatever text was parsed, printing its value, parsing that and printing again gives the same text; the reparsed value differs from the first at most in a dropped default port and in the version of an empty host |
| `UrlRoundTrip.BuildNoLonger` | 3rdparty/lssdp-cpp/src/url/cxx_url.cpp:805-914 | The printed text of a parsed text is not longer than that text, so the length check cannot reject a canonical form |
| `UrlRoundTrip.ParseShape` | 3rdparty/lssdp-cpp/src/url/cxx_url.cpp:696-856 | What every parsed text guarantees: lower-case scheme, host of registered-name characters, IPv4 version exactly for IPv4-shaped hosts, normalised and rooted path, valid port |
| `UrlRoundTrip.ScanPrinted` | 3rdparty/lssdp-cpp/src/url/cxx_url.cpp:713-804 | The delimiter searches of the scanner, in their order, find exactly the pieces that were printed |
| `UrlGrammar.ScanTailPieces` | 3rdparty/lssdp-cpp/src/url/cxx_url.cpp:788-803 | A path, a query and a fragment, each free of the delimiters that end it, are told apart again |
| `UrlRoundTrip.ScanPrintedAuthority` | 3rdparty/lssdp-cpp/src/url/cxx_url.cpp:729-787 | The printed authority is scanned to the same user info, host, version and port |
| `UrlRoundTrip.NoSchemeInPath` | 3rdparty/lssdp-cpp/src/url/cxx_url.cpp:713-728 | A printed path without ':' in its first segment is never taken for a scheme |
| `UrlRoundTrip.InterpretPrinted` | 3rdparty/lssdp-cpp/src/url/cxx_url.cpp:805-856 | Decoding the printed pieces yields the fields they were printed from |
| `UrlRoundTrip.LowerHost` | 3rdparty/lssdp-cpp/src/url/cxx_url.cpp:192-196 | Lower-casing changes neither the character class of a host nor whether it is IPv4-shaped, and is idempotent |
| `UrlRoundTrip.EmptyPrinted` | 3rdparty/lssdp-cpp/src/url/cxx_url.cpp:680-700 | The cleared value can be printed, and its text is empty |
| `UrlRoundTrip.BuildSucceeds` | 3rdparty/lssdp-cpp/src/url/cxx_url.cpp:859-914 | Exactly these values can be printed: without host, those without user info and port whose path has a '/' in front of every ':'; with a host, those whose path is empty or starts with '/'; in both cases without a query pair that has no key |
| `UrlRoundTrip.BuildFails` | 3rdparty/lssdp-cpp/src/url/cxx_url.cpp:878-906 | Which of the complaints is made when a value cannot be printed |
| `UrlRoundTrip.BuildText` | 3rdparty/lssdp-cpp/src/url/cxx_url.cpp:859-914 | The text of a printed value is scheme, authority, path, query and fragment with their marks, each only if there is something to print |
| `UrlRoundTrip.AuthorityPrinted` | 3rdparty/lssdp-cpp/src/url/cxx_url.cpp:864-877 | The printed authority: coded user info and '@', the host, in brackets for IPv6, and ':' with the port unless it is the default of http or https |
| `UrlRoundTrip.QueryText` | 3rdparty/lssdp-cpp/src/url/cxx_url.cpp:894-909 | The printed query: coded keys and values with '=' between them and '&' between the pairs |
| `UrlGrammar.ParseExact` | 3rdparty/lssdp-cpp/src/url/cxx_url.cpp:696-856 | What the parser does with any text: it accepts exactly the texts of at most 8000 characters that are composed of valid and readable parts, and reads them as the fields of these parts |
| `UrlGrammar.ScanExact` | 3rdparty/lssdp-cpp/src/url/cxx_url.cpp:713-804 | The scanner takes exactly the texts composed, as in section 5.3 of RFC 3986, of valid parts, and takes each of them apart into these parts |
| `UrlGrammar.InterpretExact` | 3rdparty/lssdp-cpp/src/url/cxx_url.cpp:805-856 | Valid parts are read if and only if their percent triples are complete and the query is of query characters; then as lower-case scheme and name, decoded and normalised path, decoded pairs and fragment |
| `UrlGrammar.DottedHostIsRead` | 3rdparty/lssdp-cpp/src/url/cxx_url.cpp:767-786 | A host in four-octet notation is read as an IPv4 address |
| `UrlGrammar.AuthorityExact` | 3rdparty/lssdp-cpp/src/url/cxx_url.cpp:729-787 | An authority is accepted exactly as user info before the first '@', host, and port behind the first ':', each of its characters |
| `UrlGrammar.TailExact` | 3rdparty/lssdp-cpp/src/url/cxx_url.cpp:788-803 | Path, query and fragment are accepted exactly as pieces free of the marks that end them, each of its characters |
| `UrlGrammar.SchemeExact` | 3rdparty/lssdp-cpp/src/url/cxx_url.cpp:129-138 | A scheme is a letter followed by letters, digits, '+', '-' and '.' |
| `UrlSetters.StepKeepsShape` | 3rdparty/lssdp-cpp/src/url/cxx_url.cpp:572-677 | Every setter call, throwing or not, keeps the shape of the fields (host calls with a valid IPv6 address left aside) |
| `UrlSetters.RunKeepsShape` | 3rdparty/lssdp-cpp/src/url/cxx_url.cpp:572-677 | So does every sequence of calls; in particular no value made by setters holds the default port of its scheme |
| `UrlSetters.SetValueIsReadBack` | 3rdparty/lssdp-cpp/src/url/cxx_url.cpp:572-914 | Any value made by setters from an empty URL, host calls with a valid IPv6 address left aside, is read back from its text if and only if its user info is of the user-info characters |
| `UrlSetters.CodedUserIsNotReadBack` | 3rdparty/lssdp-cpp/src/url/cxx_url.cpp:733-740 | Two setter calls whose text the parser rejects: a percent-coded user info is printed but not read |
| `UrlSetters.CallWrites` | 3rdparty/lssdp-cpp/src/url/cxx_url.cpp:572-677 | For every setter call: when it succeeds, which complaint it makes otherwise, which field then holds what, and that all other fields are unchanged |
| `UrlSetters.DottedHostIsSet` | 3rdparty/lssdp-cpp/src/url/cxx_url.cpp:600-637 | A host in four-octet notation is accepted as an IPv4 address |
| `UrlSetters.RunExact` | 3rdparty/lssdp-cpp/src/url/cxx_url.cpp:572-677 | The value after any sequence of calls on an empty URL, read off the sequence: each field is what the last accepted call for it says; the query is the last one set and the pairs added since; the port is none if it was the default of the scheme then or at any time since |
| `UrlObject.Url.constructor` | 3rdparty/lssdp-cpp/src/url/cxx_url.h:60 | The empty URL is parsed, built and holds the cleared value |
| `UrlObject.Url.FromText` | 3rdparty/lssdp-cpp/src/url/cxx_url.h:69 | A URL made from a text has the value that text will be parsed to |
| `UrlObject.Url.Copy` | 3rdparty/lssdp-cpp/src/url/cxx_url.h:63 | A copy has the value of its original, in every state of the flags |
| `UrlObject.Url.Assign` | 3rdparty/lssdp-cpp/src/url/cxx_url.cpp:535-550 | Copying only what the flags require preserves the value and the coherence of text and flags |
| `UrlObject.Url.SetText` | 3rdparty/lssdp-cpp/src/url/cxx_url.h:87 | A new text replaces the value by what the text will be parsed to |
| `UrlObject.Url.Clear` | 3rdparty/lssdp-cpp/src/url/cxx_url.cpp:680-693 | All fields are emptied, and the text is the print of them |
| `UrlObject.Url.ParseUrl` | 3rdparty/lssdp-cpp/src/url/cxx_url.cpp:696-856 | The fields become what the text is parsed to; when parsing throws, no field, no flag and no text has changed |
| `UrlObject.Url.LazyParse` | 3rdparty/lssdp-cpp/src/url/cxx_url.h:231 | Reading parses at most once and never changes the value |
| `UrlObject.Url.BuildUrl` | 3rdparty/lssdp-cpp/src/url/cxx_url.cpp:859-914 | Printing stores the text of the current value and keeps the value, also when it throws |
| `UrlObject.Url.Str` | 3rdparty/lssdp-cpp/src/url/cxx_url.h:84 | The text handed out is always the print of the current value |
| `UrlObject.Url.Get` | 3rdparty/lssdp-cpp/src/url/cxx_url.h:89-120 | Every field reader returns the current value's field, or the parse error, without changing the value |
| `UrlObject.Url.SetScheme` | 3rdparty/lssdp-cpp/src/url/cxx_url.cpp:572-585 | The value changes as specified: lower-cased, a port that became the default dropped; unchanged when it throws |
| `UrlObject.Url.SetUserInfo` | 3rdparty/lssdp-cpp/src/url/cxx_url.cpp:588-597 | The value changes in the user info only, or not at all when it throws |
| `UrlObject.Url.SetHost` | 3rdparty/lssdp-cpp/src/url/cxx_url.cpp:600-637 | The value changes to the checked and normalised host with its version, or not at all when it throws |
| `UrlObject.Url.SetPort` | 3rdparty/lssdp-cpp/src/url/cxx_url.cpp:640-652 | The value changes to the port, or to none for the scheme's default; unchanged when it throws |
| `UrlObject.Url.SetPath` | 3rdparty/lssdp-cpp/src/url/cxx_url.cpp:655-665 | The value changes to the normalised path, or not at all when it throws |
| `UrlObject.Url.SetQuery` | 3rdparty/lssdp-cpp/src/url/cxx_url.h:192-195 | The value changes to the given query |
| `UrlObject.Url.AddQuery` | 3rdparty/lssdp-cpp/src/url/cxx_url.h:198-201 | The pair is appended to the query of the value |
| `UrlObject.Url.SetFragment` | 3rdparty/lssdp-cpp/src/url/cxx_url.cpp:668-677 | The value changes in the fragment only, or not at all when it throws |
| `UrlReader.ParseText` | 3rdparty/lssdp-cpp/src/url/cxx_url.cpp:696-856 | The imperative parser over positions computes exactly the value the specification assigns to the text, with the same errors |
| `UrlReader.ScanText` | 3rdparty/lssdp-cpp/src/url/cxx_url.cpp:713-804 | The single pass over the text finds the specified parts, or fails as specified |
| `UrlReader.ReadAuthority` | 3rdparty/lssdp-cpp/src/url/cxx_url.cpp:729-787 | Scanning an authority between two positions yields the specified parts |
| `UrlReader.ReadHostPort` | 3rdparty/lssdp-cpp/src/url/cxx_url.cpp:767-786 | Host and port behind the user info are recognised as specified |
| `UrlReader.ReadTail` | 3rdparty/lssdp-cpp/src/url/cxx_url.cpp:788-803 | Path, query and fragment are found as specified |
| `UrlReader.CheckScheme` | 3rdparty/lssdp-cpp/src/url/cxx_url.cpp:129-138 | The scheme recogniser accepts exactly a letter followed by letters, digits, '+', '-' and '.' |
| `UrlReader.PrintUrl` | 3rdparty/lssdp-cpp/src/url/cxx_url.cpp:859-914 | The imperative printer yields exactly the specified text or error |
| `UrlReader.PrintAuthority` | 3rdparty/lssdp-cpp/src/url/cxx_url.cpp:864-877 | Prints user info, host by version, and the port unless it is the default |
| `UrlReader.PrintRest` | 3rdparty/lssdp-cpp/src/url/cxx_url.cpp:894-911 | Query and fragment are printed with their marks, or the print fails at a pair without key |
| `UrlReader.ReadRest` | 3rdparty/lssdp-cpp/src/url/cxx_url.cpp:729-804 | Authority and tail behind the scheme are found as specified |
| `UrlReader.PrintPairs` | 3rdparty/lssdp-cpp/src/url/cxx_url.cpp:894-909 | The printing loop over the query yields the specified text, or fails at a pair without key |
| `UrlPercent.DecodeEncode` | 3rdparty/lssdp-cpp/src/url/cxx_url.cpp:427-527 | Decoding undoes each of the four encoders on all ASCII texts |
| `UrlPercent.TripleDecoded` | 3rdparty/lssdp-cpp/src/url/cxx_url.cpp:427-458 | A percent sign and two digits, in upper or lower case, are read as the character whose code they are in base 16, high digit first |
| `UrlPercent.CharDecoded` | 3rdparty/lssdp-cpp/src/url/cxx_url.cpp:427-458 | Any other character is read as itself, but '+' in a query as a blank |
| `UrlPercent.DecodeAccepts` | 3rdparty/lssdp-cpp/src/url/cxx_url.cpp:427-458 | A text is decoded if and only if two hexadecimal digits follow every percent sign |
| `UrlPercent.EncodedExact` | 3rdparty/lssdp-cpp/src/url/cxx_url.cpp:461-527 | A character is printed as itself if it is allowed in its place, a blank in a query as '+', and any other as a percent sign and its code in two upper-case hexadecimal digits, high digit first |
| `UrlPercent.EncodedFirst` | 3rdparty/lssdp-cpp/src/url/cxx_url.cpp:461-527 | A text is printed character by character |
| `UrlPercent.EncodePrints` | 3rdparty/lssdp-cpp/src/url/cxx_url.cpp:461-527 | Every character that an encoder prints is allowed by its mask, or is part of a percent triple; the delimiters it must escape do not occur |
| `UrlPercent.DecodeIdentity` | 3rdparty/lssdp-cpp/src/url/cxx_url.cpp:427-458 | Outside queries, texts without '%' are decoded to themselves |
| `UrlPercent.EncodeIdentity` | 3rdparty/lssdp-cpp/src/url/cxx_url.cpp:461-475 | Texts of the mask's own characters are printed as they are |
| `UrlPercent.RecodeNoLonger` | 3rdparty/lssdp-cpp/src/url/cxx_url.cpp:427-527 | Encoding what was decoded is not longer than the text that was decoded |
| `UrlPercent.DecodeText` | 3rdparty/lssdp-cpp/src/url/cxx_url.cpp:427-458 | The decoding loop, with and without '+', equals the recursive decoder, including its failures |
| `UrlPercent.EncodeText` | 3rdparty/lssdp-cpp/src/url/cxx_url.cpp:461-527 | The encoding loop equals the recursive encoder |
| `UrlQuery.QueryRoundTrip` | 3rdparty/lssdp-cpp/src/url/cxx_url.cpp:823-909 | For every non-empty list of ASCII pairs with non-empty keys, scanning the printed query returns the same list |
| `UrlQuery.KeyScanned` | 3rdparty/lssdp-cpp/src/url/cxx_url.cpp:826-840 | A text without '=' up to the next '&' or ';' is a key without value |
| `UrlQuery.PairScanned` | 3rdparty/lssdp-cpp/src/url/cxx_url.cpp:826-840 | A key up to the first '=' and a value up to the next '&' or ';' are read as decoded key and value |
| `UrlQuery.QueryAccepts` | 3rdparty/lssdp-cpp/src/url/cxx_url.cpp:823-842 | A query is read if and only if it consists of query characters and its percent triples are complete |
| `UrlQuery.PrintedQueryChars` | 3rdparty/lssdp-cpp/src/url/cxx_url.cpp:894-909 | A printed query holds no '#', which would end it |
| `UrlQuery.QueryNoLonger` | 3rdparty/lssdp-cpp/src/url/cxx_url.cpp:823-909 | Printing a scanned query is not longer than the text it was scanned from |
| `UrlQuery.ScanKeyVal` | 3rdparty/lssdp-cpp/src/url/cxx_url.cpp:826-840 | The scan of a printed pair stops behind it and yields key and value |
| `UrlQuery.ReadPair` | 3rdparty/lssdp-cpp/src/url/cxx_url.cpp:827-840 | One round of the scanning loop yields the specified pair and position |
| `UrlQuery.ReadQuery` | 3rdparty/lssdp-cpp/src/url/cxx_url.cpp:823-842 | The scanning loop yields the specified list of pairs, one more behind every separator |
| `UrlPath.NormalizeTwice` | 3rdparty/lssdp-cpp/src/url/cxx_url.cpp:388-424 | Normalising a path is idempotent |
| `UrlPath.NormalizeFixes` | 3rdparty/lssdp-cpp/src/url/cxx_url.cpp:388-424 | A path is a fixpoint if and only if it has no '.' or '..' segment and no empty segment but possibly the last |
| `UrlPath.NormalizeShape` | 3rdparty/lssdp-cpp/src/url/cxx_url.cpp:388-424 | The result keeps whether the path is absolute and has no '.' or '..' segment and no empty one but possibly the last |
| `UrlPath.NormalizedNoDoubleSlash` | 3rdparty/lssdp-cpp/src/url/cxx_url.cpp:388-424 | A normalised path does not start with two slashes, so it cannot be taken for an authority |
| `UrlPath.NormalizeNoLonger` | 3rdparty/lssdp-cpp/src/url/cxx_url.cpp:388-424 | Normalising a path does not make its percent-encoded form longer |
| `UrlPath.ReadSegments` | 3rdparty/lssdp-cpp/src/url/cxx_url.cpp:391-412 | The loop over the segments computes the stack machine over the split path |
| `UrlPath.NormalizePath` | 3rdparty/lssdp-cpp/src/url/cxx_url.cpp:388-424 | The imperative form equals the split-and-stack specification |
| `UrlDotSegments.ParentTakesBack` | 3rdparty/lssdp-cpp/src/url/cxx_url.cpp:388-424 | A '..' takes back the segment in front of it: with or without anything behind, the two normalise to what is there without them |
| `UrlDotSegments.DotIsNothing` | 3rdparty/lssdp-cpp/src/url/cxx_url.cpp:388-424 | A '.' segment and an empty one normalise to nothing |
| `UrlDotSegments.ParentOfNothing` | 3rdparty/lssdp-cpp/src/url/cxx_url.cpp:388-424 | A '..' with nothing in front of it is dropped |
| `UrlDotSegments.TrailingDots` | 3rdparty/lssdp-cpp/src/url/cxx_url.cpp:388-424 | A '.' or '..' at the end leaves its '/' behind |
| `UrlDotSegments.ShortPaths` | 3rdparty/lssdp-cpp/src/url/cxx_url.cpp:388-424 | The paths without anything to keep |
| `UrlIpv6.Ipv6Exact` | 3rdparty/lssdp-cpp/src/url/cxx_url.cpp:215-260 | On texts without '.' the recogniser accepts exactly the IPv6 grammar: eight groups of one to four hex digits, or at most seven with exactly one '::' (section 2.2 of RFC 4291, section 3.2.2 of RFC 3986) |
| `UrlIpv6.MixedExact` | 3rdparty/lssdp-cpp/src/url/cxx_url.cpp:215-260 | On texts with '.' it accepts exactly six groups, or at most six with one '::', in front of a valid IPv4 address whose first number has at most four digits, within 39 characters; section 2.2 of RFC 4291 also has longer ones, and only up to five groups next to a '::' |
| `UrlIpv6.Ipv6HasShape` | 3rdparty/lssdp-cpp/src/url/cxx_url.cpp:199-260 | Every address it accepts passes the shape test in front of it |
| `UrlIpv6.LooksIpv6` | 3rdparty/lssdp-cpp/src/url/cxx_url.cpp:199-207 | The shape test: 2 to 254 hexadecimal digits, colons and dots |
| `UrlIpv6.AcceptsSound` | 3rdparty/lssdp-cpp/src/url/cxx_url.cpp:229-259 | Soundness of the single-pass state machine, from any of its states |
| `UrlIpv6.FullIsValid` | 3rdparty/lssdp-cpp/src/url/cxx_url.cpp:215-260 | Completeness for eight full groups |
| `UrlIpv6.CompressedIsValid` | 3rdparty/lssdp-cpp/src/url/cxx_url.cpp:215-260 | Completeness for compressed addresses, with '::' in front, in the middle or at the end |
| `UrlIpv6.CheckIpv6` | 3rdparty/lssdp-cpp/src/url/cxx_url.cpp:215-260 | The pointer-advancing loop computes the specified recogniser |
| `UrlNumbers.IsUint` | 3rdparty/lssdp-cpp/src/url/cxx_url.cpp:75-87 | The digit loop accepts a number without leading zeros whose value modulo 2^32 is at most the bound, and reports where it ends |
| `UrlNumbers.Ipv4Exact` | 3rdparty/lssdp-cpp/src/url/cxx_url.cpp:169-174 | Within 15 characters exactly the texts printed from four octets 0 to 255 are accepted |
| `UrlNumbers.Ipv4HasShape` | 3rdparty/lssdp-cpp/src/url/cxx_url.cpp:153-174 | Every four-octet notation has the shape of IPv4; of the texts the recogniser accepts only those over 254 characters do not |
| `UrlNumbers.LooksIpv4` | 3rdparty/lssdp-cpp/src/url/cxx_url.cpp:153-161 | The shape test: 7 to 254 digits and dots |
| `UrlNumbers.Ipv4Wraps` | 3rdparty/lssdp-cpp/src/url/cxx_url.cpp:75-87 | A longer text is accepted although its number exceeds 255, because the value wraps |
| `UrlNumbers.PortExact` | 3rdparty/lssdp-cpp/src/url/cxx_url.cpp:378-380 | Within nine digits exactly the decimals 0 to 65535 are accepted as port |
| `UrlNumbers.PortWrapped` | 3rdparty/lssdp-cpp/src/url/cxx_url.cpp:378-380 | In general a port is a canonical number that is at most 65535 modulo 2^32 |
| `UrlNumbers.PortWraps` | 3rdparty/lssdp-cpp/src/url/cxx_url.cpp:378-380 | A ten-digit number is accepted as port because it wraps |
| `UrlNumbers.CheckIpv4` | 3rdparty/lssdp-cpp/src/url/cxx_url.cpp:169-174 | The four numbers and three dots are recognised as specified |
| `UrlNumbers.CheckPort` | 3rdparty/lssdp-cpp/src/url/cxx_url.cpp:378-380 | The port recogniser as specified |
| `UrlNumbers.CanonicalIsPrint` | 3rdparty/lssdp-cpp/src/url/cxx_url.cpp:75-87 | Digit runs without leading zeros are the decimal notation of their value |
| `UrlChars.CheckChars` | 3rdparty/lssdp-cpp/src/url/cxx_url.cpp:47-52 | True if and only if every character is of the mask's classes |
| `UrlChars.ClassesExact` | 3rdparty/lssdp-cpp/src/url/cxx_url.cpp:16-44 | The masks let pass exactly the character sets of RFC 3986 they stand for: unreserved characters and sub-delims, and with them ':', '@', '/', '?' and '%' as the mask says |
| `UrlChars.LettersExact` | 3rdparty/lssdp-cpp/src/url/cxx_url.cpp:55-72 | The letters are the 26 of the alphabet in both cases |
| `UrlChars.DigitsExact` | 3rdparty/lssdp-cpp/src/url/cxx_url.cpp:55-72 | The digits and the hexadecimal digits in both cases |
| `UrlChars.LowerLetters` | 3rdparty/lssdp-cpp/src/url/cxx_url.cpp:106-110 | Lower-casing takes each capital letter to its counterpart and touches nothing else |
| `UrlChars.FindFirstOf` | 3rdparty/lssdp-cpp/src/url/cxx_url.cpp:113-119 | The first position with one of the characters, or the end |
| `UrlChars.FindChar` | 3rdparty/lssdp-cpp/src/url/cxx_url.cpp:122-126 | The first position of the character, or the end |
| `UrlChars.LowerCase` | 3rdparty/lssdp-cpp/src/url/cxx_url.cpp:106-110 | The lower-casing loop equals the specified text |
| `ClockRegistry.StepKeepsInv` | src/fep3/native_components/clock/clock_event_sink_registry.cpp:24-54 | Every atomic step of trigger, workers, registration and unregistration keeps the protocol invariant, in particular that the latch counts the unfinished closures plus the sinks still to be dispatched to |
| `ClockBarrier.ReachableInv` | src/fep3/native_components/clock/clock_event_sink_registry.cpp:24-54 | The invariant holds in every state of every run, with sinks coming and leaving in the gap as well, as long as each trigger that returned had as many leaving as coming there |
| `ClockBarrier.ReturnIsBarrier` | src/fep3/native_components/clock/clock_event_sink_registry.cpp:24-54 | In runs without registrations between the reset of the latch and the start of dispatch, the trigger returns only after every worker has handled the event exactly once, in order, with nothing left in a queue |
| `ClockBarrier.LiveSinksAreCalled` | src/fep3/native_components/clock/clock_event_sink_registry.cpp:33-47 | Only expired sinks are skipped |
| `ClockBarrier.ExpiredIsSkipped` | src/fep3/native_components/clock/clock_event_sink_registry.cpp:33-47 | From the time a sink has expired, over every run its worker keeps what it has handled and adds only events for which the sink is not called |
| `ClockBarrier.NoOvertaking` | src/fep3/native_components/clock/clock_event_sink_registry.cpp:24-54 | When a worker has begun an event, every worker has finished all earlier ones meant for it |
| `ClockBarrier.SameOrder` | src/fep3/native_components/clock/clock_event_sink_registry.cpp:24-54 | At any time the events that two sinks have seen since both were registered are the same in the same order, up to where the slower one is; between triggers they are equal |
| `ClockBarrier.Progress` | src/fep3/native_components/clock/clock_event_sink_registry.cpp:27-53 | While a trigger is running, it or some worker can take a step |
| `ClockBarrier.SystemStepDecreases` | src/fep3/native_components/clock/clock_event_sink_registry.cpp:27-53 | Every step of the trigger or of a worker decreases the work that is left by one |
| `ClockBarrier.TriggerReturns` | src/fep3/native_components/clock/clock_event_sink_registry.cpp:24-54 | However the steps are scheduled, and whoever registers, unregisters or expires outside the gap meanwhile: the trigger and the workers take at most as many steps as were left, and one more for each sink that is unregistered, whose worker drains first; until the trigger has returned there is such a step to take |
| `ClockGap.LatchExact` | src/fep3/native_components/clock/clock_event_sink_registry.cpp:24-54 | Over the whole run of a trigger with any steps in the gap between the reset of the latch and dispatch: it can always still return, and the barrier holds at every possible return, if and only if as many sinks left in the gap as came |
| `ClockGap.BlockedForEver` | src/fep3/native_components/clock/clock_event_sink_registry.cpp:27-53 | If more left than came, the trigger never returns, whatever workers and callers do |
| `ClockGap.SkewCounts` | src/fep3/native_components/clock/clock_event_sink_registry.cpp:27-30 | The invariant's correction of the latch is the number of sinks that left in the gap minus those that came |
| `ClockGap.RunWorkers` | src/fep3/base/thread/single_thread_worker.h:23-37 | From the latch, the workers can be left to run until the trigger can return, unless sinks are missing |
| `ClockGap.LateSinkIsNotAwaited` | src/fep3/native_components/clock/clock_event_sink_registry.cpp:27-30 | A run in which a sink registered in that gap has not been called when the trigger may return |
| `ClockGap.LeavingSinkBlocks` | src/fep3/native_components/clock/clock_event_sink_registry.cpp:27-53 | A run from an empty registry in which a sink is registered, and unregistered in the gap of the next trigger, which then never returns |
| `ClockRegistry.DrainedKeepsInv` | src/fep3/base/thread/single_thread_worker.h:28-37 | A removed worker is joined only after its queue is drained, and this keeps the invariant |
| `ClockRegistry.UnregisterKeepsInv` | src/fep3/native_components/clock/clock_event_sink_registry.h:82-111 | Unregistering at any point outside dispatch keeps the invariant |
| `ClockRegistry.RegisterKeepsInv` | src/fep3/native_components/clock/clock_event_sink_registry.h:50-78 | Registering a live sink that is not registered keeps the invariant |
| `ClockSinks.SinkRegistry.RegisterSink` | src/fep3/native_components/clock/clock_event_sink_registry.h:50-78 | An expired sink is refused, a registered one fails, any other is appended with a worker of its own |
| `ClockSinks.SinkRegistry.UnregisterSink` | src/fep3/native_components/clock/clock_event_sink_registry.h:82-111 | Exactly the entry of the sink is removed, the order of the others kept |
| `ClockLists.RegisterIsAction` | src/fep3/native_components/clock/clock_event_sink_registry.h:50-78 | The step of the state machine that registers a live sink is possible exactly when the registry accepts it, and changes the same list in the same way |
| `ClockLists.UnregisterIsAction` | src/fep3/native_components/clock/clock_event_sink_registry.h:82-111 | The step that unregisters a live sink is possible exactly when the registry finds it, and erases the same entry |
| `ClockSinks.UnregisterUndoesRegister` | src/fep3/native_components/clock/clock_event_sink_registry.h:50-111 | Unregistering a sink that was just registered restores the list |
| `DiscreteClocks.SessionIsReplayed` | include/fep3/components/clock/clock_base.h:88-108 | In every session the trace consists of reset pairs and update groups whose old time is the time before; only resets go back; replaying the trace gives the clock's time |
| `DiscreteClocks.ReplayStep` | include/fep3/components/clock/clock_base.h:364-443 | The events of one operation are replayed from the old time to the new one |
| `DiscreteClocks.SessionIsSent` | include/fep3/components/clock/clock_base.h:88-443 | Over every session, the time is the one set last, and the events are, one after the other: begin and end of a reset from the time before to the new one for a reset or an earlier time; otherwise the update, with its begin and end only if they are asked for. A clock without a sink sends nothing |
| `DiscreteClocks.DiscreteClock.Start` | include/fep3/components/clock/clock_base.h:88-97 | Starting sends one reset pair to the new sink and sets time 0 |
| `DiscreteClocks.DiscreteClock.Stop` | include/fep3/components/clock/clock_base.h:101-108 | Stopping forgets the sink and keeps the time |
| `DiscreteClocks.DiscreteClock.SetNewTime` | include/fep3/components/clock/clock_base.h:393-420 | The clock and the events its sink receives are those of the specification |
| `DiscreteClocks.DiscreteClock.SetResetTime` | include/fep3/components/clock/clock_base.h:427-443 | One reset pair, and the new time |
| `DiscreteClocks.DiscreteClock.Reset` | include/fep3/components/clock/clock_base.h:364-369 | A reset marks the clock as updated and sends one reset pair |
| `ContinuousClocks.ContinuousClock.SetResetTime` | include/fep3/components/clock/clock_base.h:291-324 | Whatever the sink calls from inside the callbacks, a top-level reset terminates with exactly one reset pair and the guard cleared; a nested one does nothing |
| `ContinuousClocks.ContinuousClock.Send` | include/fep3/components/clock/clock_base.h:308-318 | Any number of nested calls sends no event and leaves the guard set |
| `ContinuousClocks.ContinuousClock.SetNewTime` | include/fep3/components/clock/clock_base.h:273-284 | Only a clock never updated resets; the time is the new one afterwards |
| `ContinuousClocks.ContinuousClock.ReadTime` | include/fep3/components/clock/clock_base.h:227-232 | Reading returns the source's time and, once updated, sends nothing |
| `ContinuousClocks.ContinuousClock.DoReset` | include/fep3/components/clock/clock_base.h:249-252 | A top-level reset sends one pair, a nested one none |
| `ContinuousClocks.ContinuousClock.Start` | include/fep3/components/clock/clock_base.h:88-97 | Starting sends exactly one reset pair |
| `ContinuousClocks.ContinuousClock.Session` | include/fep3/components/clock/clock_base.h:88-324 | A whole session with any sink and any calls: one pair for the start and one for each reset from outside, never nested, each from the time the clock had when the reset came; the time after it is the one read last, by the sink or from outside; the guard is clear at the end |
| `ContinuousClocks.ContinuousClock.ReadingSession` | include/fep3/components/clock/clock_base.h:88-324 | A session without a reset from outside sends exactly one pair |
| `ContinuousClocks.PairsAppend` | include/fep3/components/clock/clock_base.h:308-318 | A further pair keeps the trace a sequence of complete pairs |
| `LssdpMessages.MessageIsReadBack` | 3rdparty/lssdp-cpp/src/lssdpcpp/lssdpcpp.cpp:1107-1157 | Parsing an alive, byebye or response message of a service with printable, trimmed and '%'-free texts yields its kind and exactly the fields it carries, cut to their buffers; absent fields are empty |
| `LssdpTexts.SentText` | 3rdparty/lssdp-cpp/src/lssdpcpp/lssdpcpp.cpp:1107-1157 | The text of an alive, byebye or response message, header by header and in full |
| `LssdpTexts.SentSearchText` | 3rdparty/lssdp-cpp/src/lssdpcpp/lssdpcpp.cpp:1498-1513 | The text of an M-SEARCH, header by header and in full |
| `LssdpMessages.FormatTemplate` | 3rdparty/lssdp-cpp/src/lssdpcpp/lssdpcpp.cpp:1217-1272 | Formatting puts the address of the interface in the location and changes nothing else |
| `LssdpMessages.LinesAreOnce` | 3rdparty/lssdp-cpp/src/lssdpcpp/lssdpcpp.cpp:1107-1157 | No message carries two lines for the same buffer |
| `LssdpPackets.ParsePrintedLines` | 3rdparty/lssdp-cpp/src/lssdpcpp/lssdpcpp.cpp:249-257 | The lines of any printed message are stored in their order |
| `LssdpPackets.ParseAccepts` | 3rdparty/lssdp-cpp/src/lssdpcpp/lssdpcpp.cpp:220-247 | A text is parsed if and only if it holds no zero and starts with one of the three start lines and something behind it |
| `LssdpPackets.ParsedPacket` | 3rdparty/lssdp-cpp/src/lssdpcpp/lssdpcpp.cpp:220-259 | Which kind each start line stands for; what is behind it is read into cleared buffers |
| `LssdpPackets.FieldsExact` | 3rdparty/lssdp-cpp/src/lssdpcpp/lssdpcpp.cpp:249-257 | A line ends at a carriage return and newline behind at least one character, and nowhere else; what is not ended is not read |
| `LssdpPackets.ParseLineExact` | 3rdparty/lssdp-cpp/src/lssdpcpp/lssdpcpp.cpp:269-308 | Exactly the lines with a name and a value around the first colon, each with blanks around it or none, are parsed, to that name and value |
| `LssdpPackets.TrimExact` | 3rdparty/lssdp-cpp/src/lssdpcpp/lssdpcpp.cpp:367-381 | What is left of a trimmed text is the part between its first and its last visible character |
| `LssdpPackets.FieldOfExact` | 3rdparty/lssdp-cpp/src/lssdpcpp/lssdpcpp.cpp:311-355 | The names st, nt, usn, location, sm_id, dev_type and nts, in any mixture of upper and lower case, have a buffer, and no other name has one |
| `LssdpPackets.StoreExact` | 3rdparty/lssdp-cpp/src/lssdpcpp/lssdpcpp.cpp:311-352 | A value is written over the start of the buffer, what is longer stays behind it, and the last byte is never written |
| `LssdpPackets.CutExact` | 3rdparty/lssdp-cpp/src/lssdpcpp/lssdpcpp.cpp:202-212 | There is room for 255 characters in the location and for 127 in every other field |
| `LssdpPackets.ParsePrintedLine` | 3rdparty/lssdp-cpp/src/lssdpcpp/lssdpcpp.cpp:269-308 | Any line with a good name is parsed to its name and its trimmed value |
| `LssdpPackets.FieldOfLine` | 3rdparty/lssdp-cpp/src/lssdpcpp/lssdpcpp.cpp:269-355 | The only line for a field determines the text in its buffer, cut to the room there is |
| `LssdpPackets.FieldOfNoLine` | 3rdparty/lssdp-cpp/src/lssdpcpp/lssdpcpp.cpp:202-212 | A field without a line is empty |
| `LssdpPackets.StoreInZeros` | 3rdparty/lssdp-cpp/src/lssdpcpp/lssdpcpp.cpp:311-352 | What is copied into a cleared buffer is read back as far as there is room next to the closing zero |
| `LssdpDiscovery.ObserveExact` | 3rdparty/lssdp-cpp/src/lssdpcpp/lssdpcpp.cpp:1704-1761 | A finder makes exactly one callback, with the matching event, location, name and target, for every message it wants by target and device type, and none for any other |
| `LssdpDiscovery.ObserveAny` | 3rdparty/lssdp-cpp/src/lssdpcpp/lssdpcpp.cpp:1704-1761 | The callback for any text, whoever sent it, from the fields it is parsed to: none for a search; byebye exactly for 'ssdp:byebye', alive for anything else in a NOTIFY; the filters for target and device type |
| `LssdpDiscovery.AnswersAny` | 3rdparty/lssdp-cpp/src/lssdpcpp/lssdpcpp.cpp:1407-1422 | Of all texts, a service answers exactly those parsed to a search for 'ssdp:all' or for its own target |
| `LssdpDiscovery.OwnTargetIsSeen` | 3rdparty/lssdp-cpp/src/lssdpcpp/lssdpcpp.cpp:1716-1723 | A finder without filter reports a service with the same target if and only if the target fits its 128-byte buffer, and none with another target |
| `LssdpDiscovery.FilterHidesByeBye` | 3rdparty/lssdp-cpp/src/lssdpcpp/lssdpcpp.cpp:1130-1136 | A finder with a device filter reports no byebye message at all, because none carries a device type |
| `LssdpDiscovery.SearchIsReadBack` | 3rdparty/lssdp-cpp/src/lssdpcpp/lssdpcpp.cpp:1498-1513 | An M-SEARCH message is parsed to its target, with 'ssdp:all' for an empty one |
| `LssdpDiscovery.AnswersExact` | 3rdparty/lssdp-cpp/src/lssdpcpp/lssdpcpp.cpp:1407-1422 | A service answers a printed search if and only if it asks for 'ssdp:all' or for the service's own target |
| `LssdpDiscovery.AnswerIsSeen` | 3rdparty/lssdp-cpp/src/lssdpcpp/lssdpcpp.cpp:1366-1772 | As long as targets fit their buffers, a service answers the search of a finder without filter if and only if that finder reports the answer |
| `LssdpDiscovery.EventsExact` | 3rdparty/lssdp-cpp/src/lssdpcpp/lssdpcpp.cpp:1663-1772 | Over a whole run of deliveries from any services and other finders, the callbacks are exactly the announcements wanted, in order |
| `LssdpDiscovery.AnsweredExact` | 3rdparty/lssdp-cpp/src/lssdpcpp/lssdpcpp.cpp:1366-1432 | Over a whole run of deliveries, a service answers exactly the searches meant for it |
| `LssdpSetup.SetUpIsGood` | 3rdparty/lssdp-cpp/src/lssdpcpp/lssdpcpp.cpp:1068-1106 | What the URL parser guarantees about schemes, hosts and ports makes every service that can be set up from URLs printable |
| `LssdpSetup.SetUpExact` | 3rdparty/lssdp-cpp/src/lssdpcpp/lssdpcpp.cpp:1066-1106 | From which URLs a service can be set up, and which of their parts it uses for what |
| `LssdpSetup.FinderSetUpExact` | 3rdparty/lssdp-cpp/src/lssdpcpp/lssdpcpp.cpp:1472-1502 | The same for finders |
| `LssdpSetup.FinderSetUpIsGood` | 3rdparty/lssdp-cpp/src/lssdpcpp/lssdpcpp.cpp:1472-1502 | The same for finders |
| `LssdpSetup.SetUpIsObserved` | 3rdparty/lssdp-cpp/src/lssdpcpp/lssdpcpp.cpp:1066-1772 | From the URLs of a service to the callbacks of a finder: exactly one for what it wants, none for the rest |
| `LssdpSetup.PortFits` | 3rdparty/lssdp-cpp/src/lssdpcpp/lssdpcpp.cpp:1093 | Ports that the URL parser lets pass by wrapping are beyond the int range and rejected, so the cast to 16 bits never drops anything |
| `LssdpSetup.PrintedAddress` | 3rdparty/lssdp-cpp/src/lssdpcpp/lssdpcpp.cpp:1086-1100 | A well-formed URL whose text has at most 8000 characters names a multicast address if and only if its host is IPv4-shaped and its port is a number below 2^16, and then names this host and port |
| `LssdpReader.LssdpPacket.constructor` | 3rdparty/lssdp-cpp/src/lssdpcpp/lssdpcpp.cpp:202-212 | All buffers are filled with zeros |
| `LssdpReader.LssdpPacket.Parse` | 3rdparty/lssdp-cpp/src/lssdpcpp/lssdpcpp.cpp:220-259 | The index loop over the received text fills the buffers exactly as specified; a rejected text leaves them untouched |
| `LssdpReader.LssdpPacket.ParseLines` | 3rdparty/lssdp-cpp/src/lssdpcpp/lssdpcpp.cpp:249-257 | The loop finds the specified line ends and stores each line once |
| `LssdpReader.LssdpPacket.ParseFieldLine` | 3rdparty/lssdp-cpp/src/lssdpcpp/lssdpcpp.cpp:269-355 | One line changes the buffers exactly as specified, and the result says whether it was known |
| `LssdpReader.LssdpPacket.SetField` | 3rdparty/lssdp-cpp/src/lssdpcpp/lssdpcpp.cpp:311-355 | The value is copied into the buffer of the named field only |
| `LssdpReader.CopyValue` | 3rdparty/lssdp-cpp/src/lssdpcpp/lssdpcpp.cpp:312-351 | The value is copied over the start of the buffer, whose last byte is never written |
| `LssdpReader.GetColonIndex` | 3rdparty/lssdp-cpp/src/lssdpcpp/lssdpcpp.cpp:357-365 | The first colon in the range, or -1 |
| `LssdpReader.TrimSpaces` | 3rdparty/lssdp-cpp/src/lssdpcpp/lssdpcpp.cpp:367-381 | The two loops find the bounds of the trimmed text, or that nothing is left |
| `LssdpReader.CheckForServices` | 3rdparty/lssdp-cpp/src/lssdpcpp/lssdpcpp.cpp:1702-1762 | The receiving loop makes exactly the specified callbacks |
| `LssdpReader.CheckForMSearch` | 3rdparty/lssdp-cpp/src/lssdpcpp/lssdpcpp.cpp:1405-1422 | The receiving loop answers exactly the specified searches |
| `PropertyTrees.IsEqualExact` | include/fep3/base/properties/propertynode.h:502-530 | On trees with unique sibling names, the comparison coincides with equality of the name-indexed unordered trees |
| `PropertyTrees.EqualityIsEquivalence` | include/fep3/base/properties/propertynode.h:502-530 | Hence it is reflexive, symmetric and transitive on such trees |
| `PropertyTrees.EqualNames` | include/fep3/base/properties/propertynode.h:510-530 | The counting argument: equal numbers of children and names found on one side mean equal sets of names |
| `PropertyTrees.PathsExact` | include/fep3/base/properties/propertynode.h:502-530 | On any two trees, with whatever names, the comparison holds if and only if every node of the second is found in the first under the names on the way to it, with the same texts and number of children |
| `PropertyTrees.EqualityIsTransitive` | include/fep3/base/properties/propertynode.h:502-530 | The comparison is transitive on all trees |
| `PropertyTrees.ReflexivityExact` | include/fep3/base/properties/propertynode.h:502-530 | A tree is equal to itself if and only if every node is labelled like the one found under the names on the way to it; unique names are enough |
| `PropertyTrees.SymmetryExact` | include/fep3/base/properties/propertynode.h:502-530 | A comparison that holds may be turned round if and only if the first tree is equal to itself and all its names are found in the second |
| `PropertyTrees.DuplicatesAreNotEqual` | include/fep3/base/properties/propertynode.h:502-530 | A tree with two different siblings of one name that is not equal to itself, and that is compared with different results in the two directions |
| `PropertyTrees.SetExact` | include/fep3/base/properties/propertynode.h:646-661 | Setting a child keeps sibling names unique and replaces or adds exactly its entry in the index |
| `PropertyTrees.RemoveExact` | include/fep3/base/properties/propertynode.h:614-626 | Removing a child keeps sibling names unique and removes exactly its entry |
| `PropertyTrees.SetIsFound` | include/fep3/base/properties/propertynode.h:553-567 | A child that was set is what is found under its name |
| `PropertyTrees.SetTwice` | include/fep3/base/properties/propertynode.h:646-661 | Of two children set under one name the second counts |
| `PropertyTrees.WithChildExact` | include/fep3/base/properties/propertynode.h:614-661 | Only the first child of a name is removed, all others keep their order, and a child that is set becomes the last one |
| `PropertyTrees.WithNewChild` | include/fep3/base/properties/propertynode.h:614-661 | Without a child of that name nothing is removed, and the new child becomes the last one |
| `PropertyNodes.PropertyNode.IsEqualTo` | include/fep3/base/properties/propertynode.h:502-530 | The recursive comparison of nodes equals the comparison of the trees below them |
| `PropertyNodes.PropertyNode.GetChild` | include/fep3/base/properties/propertynode.h:553-567 | The first child with the name, or null |
| `PropertyNodes.PropertyNode.SetChild` | include/fep3/base/properties/propertynode.h:646-661 | The tree below the node changes by replacing the child of that name, which becomes the last one |
| `PropertyNodes.PropertyNode.RemoveChild` | include/fep3/base/properties/propertynode.h:614-626 | The tree below the node loses the first child of that name and nothing else |
| `PropertyNodes.PropertyNode.CopyDeepFrom` | include/fep3/base/properties/propertynode.h:420-439 | The node becomes the root of a copy made of fresh nodes that is the same tree; the original is unchanged |
| `PropertyNodes.PropertyNode.SetValue` | include/fep3/base/properties/propertynode.h:463-477 | A value is refused if its type is not that of the node, and changes nothing else otherwise |
| `DataReception.DrainExact` | src/fep3/core/data/data_reader.cpp:79-90 | An update moves exactly the due prefix of the incoming queue: its types and samples in order, the oldest samples overwritten |
| `DataReception.DueEndIsPrefix` | src/fep3/core/data/data_reader.cpp:79-90 | The due prefix ends with a sample, all its samples are due, and the next sample is not |
| `DataReception.DuePrefixIsUnique` | src/fep3/core/data/data_reader.cpp:79-90 | No other prefix has these properties |
| `DataReception.TypesFirst` | src/fep3/core/data/data_reader.cpp:79-90 | Stream types queued in front of a moved sample are in force before it is received |
| `DataReception.DueMovedExactly` | src/fep3/core/data/data_reader.cpp:79-90 | An update moves all due samples if and only if none of them is queued behind one that is not due |
| `DataRuns.RunExact` | src/fep3/core/data/data_reader.cpp:79-90 | After a run in which the incoming queue never overflows and nothing is taken out of the backlog, the reader is determined by the arrivals and the last update alone; how many updates there were before makes no difference |
| `DataRuns.BacklogExact` | src/fep3/core/data/data_reader.cpp:79-90 | With arrivals in the order of time, no overflow of the incoming queue and nothing taken out, the backlog after a run is the last 'capacity' of all samples due at the last update |
| `DataRuns.RunIsGood` | src/fep3/core/data/data_reader.cpp:79-90 | Over every run, also with overflowing queues and samples taken out in between, the backlog is sorted, within capacity, not newer than what is incoming, and holds nothing that is not due |
| `DataTypes.ArriveTypesExact` | src/fep3/base/queue/data_item_queue.cpp:44-57 | An arrival leaves the types under which all later samples are received as they are, whatever arrives next, if and only if the queue is not full, or the item overwritten is a sample, or a type that is in force anyway, or one that another type follows directly |
| `DataTypes.ReceivedUnderItsType` | src/fep3/core/data/data_reader.cpp:79-90 | Over every run in which no other type is overwritten, with overflowing queues and samples taken out, each sample is received under a type under which it arrived |
| `DataTypes.OverflowLosesType` | src/fep3/base/queue/data_item_queue.cpp:44-57 | A run in which a full incoming queue drops a type, so that a sample is read under the wrong one |
| `DataReception.PurgeMeetsRead` | include/fep3/core/data/data_reader_backlog.h:168-212 | Purging takes the sample that reading finds and leaves nothing older if and only if no older sample is behind one that is not; otherwise reading looks further |
| `DataReception.PurgeMeetsReadSorted` | include/fep3/core/data/data_reader_backlog.h:168-212 | On a backlog in the order of time both give the same sample, and nothing older remains |
| `DataReception.UnsortedPurgeMissesOlder` | include/fep3/core/data/data_reader_backlog.h:202-212 | A backlog out of order on which they differ |
| `DataReaders.DataReader.ReceiveNow` | src/fep3/core/data/data_reader.cpp:79-90 | The loop changes reader and incoming queue exactly as specified, with any comparator; without a connected reader nothing happens |
| `DataReaders.DataReader.AddToDataRegistry` | src/fep3/core/data/data_reader.cpp:56-65 | The reader is connected to an empty queue of its own with the capacity of the backlog |
| `DataReaders.DataReader.RemoveFromDataRegistry` | src/fep3/core/data/data_reader.cpp:67-77 | The reader is disconnected, and its backlog stays |
| `DataReaders.DataReader.Deliver` | src/fep3/native_components/data_registry/data_reader_queue.hpp:91-94 | A sample that arrives in the connected queue is the arrival step of a run |
| `DataReaders.DataReader.DeliverType` | src/fep3/native_components/data_registry/data_reader_queue.hpp:81-84 | So is a type |
| `DataReaders.DataReader.PopSampleOldest` | include/fep3/core/data/data_reader_backlog.h:130-133 | Taking the oldest sample out of a reader is the step of a run of that name |
| `DataReaders.DataReader.PopSampleLatest` | include/fep3/core/data/data_reader_backlog.h:118-121 | So is taking the latest one |
| `DataReaders.DataReader.PurgeAndPopSampleBefore` | include/fep3/core/data/data_reader_backlog.h:202-212 | So is purging |
| `DataReaders.DataReader.SetCapacity` | include/fep3/core/data/data_reader_backlog.h:235-242 | So is a change of the capacity |
| `DataReaders.DataReaderQueue.Pop` | src/fep3/native_components/data_registry/data_reader_queue.hpp:117-121 | The oldest item, sample or type, is handed to the receiver |
| `DataReaders.DataReaderBacklog.ReceiveSample` | include/fep3/core/data/data_reader_backlog.h:74-77 | The sample is appended, the oldest one overwritten when the backlog is full |
| `DataReaders.DataReaderBacklog.ReceiveType` | include/fep3/core/data/data_reader_backlog.h:63-67 | The type in force is replaced, the samples stay |
| `DataReaders.DataReaderBacklog.ReadSampleBefore` | include/fep3/core/data/data_reader_backlog.h:168-190 | The newest position with a sample older than the bound, whatever the order |
| `DataReaders.DataReaderBacklog.PurgeAndPopSampleBefore` | include/fep3/core/data/data_reader_backlog.h:202-212 | The longest prefix of older samples is removed and its last one returned |
| `DataReaders.DataReaderBacklog.PopSampleOldest` | include/fep3/core/data/data_reader_backlog.h:130-133 | The oldest sample is removed and returned |
| `DataReaders.DataReaderBacklog.PopSampleLatest` | include/fep3/core/data/data_reader_backlog.h:118-121 | The latest sample is removed and returned |
| `DataReaders.DataReaderBacklog.ReadSampleLatest` | include/fep3/core/data/data_reader_backlog.h:142-145 | The latest sample, without removing it |
| `DataReaders.DataReaderBacklog.ReadSampleOldest` | include/fep3/core/data/data_reader_backlog.h:154-157 | The oldest sample, without removing it |
| `DataReaders.DataReaderBacklog.FrontTime` | include/fep3/core/data/data_reader_backlog.h:86-89 | The time of the oldest sample |
| `DataReaders.DataReaderBacklog.SetCapacity` | include/fep3/core/data/data_reader_backlog.h:235-242 | The backlog is emptied; a capacity of 0 becomes 1 |
| `DataQueues.DataItemQueue.constructor` | src/fep3/base/queue/data_item_queue.cpp:27-39 | The queue is empty; a capacity of 0 becomes 1 |
| `DataQueues.LastNExact` | src/fep3/base/queue/data_item_queue.cpp:44-57 | What is kept is the end of what was pushed, as long as the capacity allows |
| `DataQueues.DataItemQueue.PushSample` | src/fep3/base/queue/data_item_queue.cpp:44-49 | The queue holds the last 'capacity' items pushed |
| `DataQueues.DataItemQueue.PushType` | src/fep3/base/queue/data_item_queue.cpp:52-57 | The same for types |
| `DataQueues.DataItemQueue.FirstTime` | src/fep3/base/queue/data_item_queue.cpp:60-70 | The time of the first sample, whatever types are in front of it |
| `DataQueues.DataItemQueue.PopFront` | src/fep3/base/queue/data_item_queue.cpp:85-134 | The front item is removed and handed out, or nothing |
| `DataQueues.DataItemQueue.PopBack` | src/fep3/base/queue/data_item_queue.cpp:138-186 | The back item is removed and handed out, or nothing |
| `DataQueues.DataItemQueue.SetCapacity` | src/fep3/base/queue/data_item_queue.cpp:295-303 | The queue is emptied and has exactly the given capacity |

## Left out

- UrlReader.ParseText: does not model bracketed hosts; IPv6 literals and IPvFuture end in the error `IpLiteral`. The program's `normalize_IPv6` tests the wrong pointer (`3rdparty/lssdp-cpp/src/url/cxx_url.cpp:310`), so that no value-preservation holds for them.
- UrlRoundTrip.RoundTripExact: says nothing of IPv6 hosts; the program reads some of them back, `::1` for instance, and the model none.
- UrlRoundTrip.BuildParseBuild: does not model texts with bracketed hosts, which the model does not parse.
- UrlRoundTrip.BuildNoLonger: does not model texts with bracketed hosts.
- UrlRoundTrip.ParseShape: does not model texts with bracketed hosts.
- UrlGrammar.ParseExact: does not model texts with bracketed hosts, which the program accepts in part.
- UrlGrammar.ScanExact: does not model texts with bracketed hosts.
- UrlGrammar.AuthorityExact: does not model bracketed hosts.
- UrlSetters.CallWrites: takes a host call with a valid IPv6 address for one that throws.
- UrlSetters.RunExact: takes host calls with a valid IPv6 address for ones that throw.
- UrlRoundTrip.AuthorityPrinted: leaves out the text of a host without version, which no setter makes and no text is read as.
- LssdpSetup.SetUpExact: refuses a location URL with a bracketed host, which the program accepts.
- UrlObject.Url.ParseUrl: does not model bracketed hosts, on which it throws.
- UrlReader.ScanText: does not model bracketed hosts, on which it fails.
- UrlReader.ReadAuthority: does not model bracketed hosts, on which it fails.
- UrlReader.ReadHostPort: does not model bracketed hosts, on which it fails.
- UrlReader.ReadRest: does not model bracketed hosts, on which it fails.
- UrlReader.PrintUrl: models of the IPvFuture versions only -1, the one of an empty host.
- UrlReader.PrintAuthority: models of the IPvFuture versions only -1.
- UrlSetters.StepKeepsShape: takes a host call with a valid IPv6 address for one that throws.
- UrlSetters.RunKeepsShape: takes host calls with a valid IPv6 address for ones that throw.
- UrlSetters.SetValueIsReadBack: takes host calls with a valid IPv6 address for ones that throw.
- LssdpSetup.SetUpIsGood: refuses a location URL with a bracketed host, which the program accepts.
- LssdpSetup.SetUpIsObserved: refuses a location URL with a bracketed host, which the program accepts.
- UrlObject.Url.SetHost: is modelled for the default version parameter; a valid IPv6 address ends in the error `Ipv6Literal` instead of being normalised.
- UrlIpv6.Ipv6Exact: is stated for texts without '.'; those with an IPv4 tail are the subject of `UrlIpv6.MixedExact`.
- UrlObject.Url.BuildUrl: asks for ASCII fields where they are encoded, because the program is undefined on other bytes.
- UrlObject.Url.Get: stands for all field readers, which differ in the field they return; indexed access to the query is not modelled.
- The writable references to the query vector, which allow changes behind the object's back, and the debug output of `Url`.
- Move construction and move assignment of URLs: the moved-from object is left in a state the language does not fix.
- ClockBarrier.ReturnIsBarrier: excludes registrations between the reset of the latch and the start of dispatch, with which it is false; the exact condition is `ClockGap.LatchExact`. One trigger is in flight at a time, as the clock service calls it.
- ClockGap.LatchExact: lets the trigger return only while the latch is exactly zero. The latch of boost is not part of this model: a waiter it has woken at zero may return after the count has passed on, with fewer closures unfinished.
- ContinuousClocks.ContinuousClock.Send: the sink lives as long as the session; its expiry between two events is not modelled.
- The contents of the five event fan-outs besides their order: each passes its arguments to the sink unchanged.
- LssdpReader.CheckForServices: is given the texts received before the loop ends by timeout, socket error or a callback that disables discovery; the 2048-byte receive buffer, which truncates longer messages, is not modelled.
- LssdpReader.CheckForMSearch: says which searches are answered; sending the answer, the lookup of the interface, and the receive buffer are left out.
- LssdpMessages.MessageIsReadBack: asks for texts without '%', because the templates are formatted, and without control characters.
- LssdpDiscovery.AnswersExact: says when a service decides to answer; that it then looks for the interface in the network of the sender is left out.
- Sockets, `select`, network interfaces, timeouts, error texts of sending, and the operating system's name and version, which are part of the product text here.
- PropertyNodes.PropertyNode.SetChild: asks for a child that shares no node with the tree; shared nodes would make it a graph.
- PropertyNodes.PropertyNode.CopyDeepFrom: asks for another tree; copying a node from itself would lock its mutex twice.
- DataRuns.RunExact: asks that the incoming queue does not overflow and nothing is taken out of the backlog; otherwise the result depends on when the updates were.
- DataRuns.BacklogExact: asks the same.
- Observers, property variables, the shallow copies of property nodes, the check of property names, and the conversion of property values.
- DataItemQueue::pop, which takes the back although documented to take the front, and the indexed reads and the forward iteration of the queue.
- `DataIOContainer`, job configuration, logging, plugin loading, RPC definitions, the participant state machine, scheduler and buses: wrappers, or interfaces whose implementation is elsewhere.
