# Search-reply handling and message cache of a DC++-family client

This project models two parts of the AirDC++ client in Dafny and proves properties of them.

**`SearchManager`** (SearchManager.cpp) is the search engine's UDP side. It covers:

- how an incoming datagram is decrypted, or passed through raw, using the keys of earlier searches;
- how the plaintext is routed by its prefix:
  - the legacy `$SR` record is cut into nick, name, size, slots, hub name and hub address;
  - a structured `RES`, `DSR`, `PSR` or `PBD` command is scanned for its tagged parameters, then decided on;
- how every outgoing search stores a key and enters each hub in a token table, which a minute timer sweeps;
- how the partial-sharing replies `PSR` and `PBD` are serialised;
- the search-type registry, a name-ordered table of extension lists, and the two lookups into it;
- the small helpers `isDefaultTypeStr` and `normalizeWhitespace`.

**`MessageCache`** (airdcpp/MessageCache.h) is a bounded first-in-first-out queue of chat and log messages with read flags.

Modules:

| module | content |
|---|---|
| `Strings`, `Numbers` | `find`/`rfind`/`count` on strings; `atoi`-style number reading; `uint8_t`, `uint16_t` and `uint32_t` truncation |
| `PacketDecoder` | the encrypted-datagram gate as specification functions |
| `LegacyReply` | the `$SR` cutter and the decision that follows it |
| `LegacyRoundTrip` | `$SR` records built from their fields and cut back by the legacy parser |
| `AdcTags` | last-wins tag lookup over a parameter list; comma tokenising; `Util::toNmdcFile` |
| `AdcReplies` | the scan loops and decisions of onRES, onDSR, onPSR and onPBD |
| `PartsCodec` | getPartsString, toPSR and toPBD |
| `RoundTrip` | the PSR and PBD serialisers read back by the parsers |
| `Dispatch` | the prefix dispatch of onData |
| `Correlator` | the token table: search issuance and the minute sweep |
| `SearchTypes` | the registry as a sorted association list and its specification functions |
| `Manager` | `class SearchManager`, holding the key list, the token map and the type table, with the methods that change them |
| `Messages` | `class MessageCache` and its specification functions |

Collaborators are parameters of the model:

- AES decryption is a function `decrypt(key, bytes)` that preserves length.
- The AdcCommand parser is a function from text to a parameter list.
- The CID lookup answers unknown, ourselves or another user.
- The answers of the download queue and of the hub lookup are given values.
- The clock is a `tick` argument.
- The random hub tokens, the new key and its Base32 text are arguments of `Search`.
- The message limit is the `limit` argument of `Add`.

## Model

| member | source | states |
|---|---|---|
| PacketDecoder.Decode | SearchManager.cpp:222-261 | what onData parses; stated by RawUnlessEncryptedShape, RawWhenNoKeyAccepted and FirstAcceptedKeyDecides: the raw bytes unless the datagram has the encrypted shape and some key is accepted, otherwise the text from offset 16 of the first accepted key's plaintext with its padding zeroed; DecodePacket's loop is proved equal to it |
| PacketDecoder.FirstAccepted | SearchManager.cpp:227-249 | the key index taken is the first, from the start, whose decrypted last byte is 1..16; every earlier key fails that test; when none is returned, every key fails it |
| PacketDecoder.MatchedRun | SearchManager.cpp:251-256 | the padding loop stops at the first byte that differs from p, or after p bytes; every byte before the stop equals p |
| PacketDecoder.CString | SearchManager.cpp:258 | `(char*)out+16` is the bytes up to the first zero; when no zero follows, there is no string (Unterminated) |
| PacketDecoder.RawUnlessEncryptedShape | SearchManager.cpp:225 | a datagram shorter than 32 bytes, or not a multiple of 16 long, is parsed unchanged |
| PacketDecoder.RawWhenNoKeyAccepted | SearchManager.cpp:227-261 | when no key gives an acceptable last byte, the raw bytes are parsed unchanged |
| PacketDecoder.FirstAcceptedPrefix | SearchManager.cpp:227-259 | keys added after the accepted one never change which key is taken |
| PacketDecoder.FirstAcceptedKeyDecides | SearchManager.cpp:227-259 | the payload is taken from the first key with a 1..16 last byte, whatever keys follow it |
| PacketDecoder.FullPaddingTerminates | SearchManager.cpp:251-258 | when all p padding bytes match, they are zeroed, so the payload ends before the padding and is the bytes from offset 16 |
| PacketDecoder.MismatchStillTaken | SearchManager.cpp:251-258 | a key whose first padding byte differs is still taken, nothing is zeroed, and without a zero byte the payload is unterminated |
| PacketDecoder.ZeroAtSixteenGivesEmpty | SearchManager.cpp:258 | a zero at offset 16 gives the empty payload |
| Manager.SearchManager.DecodePacket | SearchManager.cpp:225-259 | the loop over the stored keys, with the padding zeroed in place, returns exactly the specified payload |
| Manager.ClearPadding | SearchManager.cpp:251-256 | zeroing in place leaves the array equal to the specified zero-padded form |
| Dispatch.Dispatch | SearchManager.cpp:263-437 | the prefix dispatch of onData; stated by LegacyFirst, CommandRoutesNeedShape, ResShapeRoutes, DsrShapeRoutes, PsrUnknownSenderKept, PbdNeedsSharing and UbnSkipsCidCheck: "$SR " goes to the legacy parser, each verb needs its shape before its handler gets the parameters after the CID, and everything else is ignored |
| Dispatch.Receive | SearchManager.cpp:221-437 | onData as a whole, the decoded payload dispatched as text; stated by EmptyDatagramThrows and EmptyDecryptionThrows: an empty text, raw or decrypted, throws at the first `compare(1, ...)` |
| Dispatch.CommandRoutesNeedShape | SearchManager.cpp:363-437 | every structured route needs its verb at offset 1 and a final line feed; RES/DSR/PSR/PBD also need a first parameter of length 39, and the handler gets the parameters after it; RES needs a known CID, PBD needs partial sharing on |
| Dispatch.ResShapeRoutes | SearchManager.cpp:363-377 | a line-feed-terminated RES whose first parameter is a 39-character CID of a known user reaches onRES with the parameters after the CID |
| Dispatch.DsrShapeRoutes | SearchManager.cpp:378-387 | a line-feed-terminated DSR whose first parameter has 39 characters reaches onDSR with the parameters after it |
| Dispatch.LegacyFirst | SearchManager.cpp:264 | a text starting with "$SR " always goes to the legacy parser |
| Dispatch.PbdNeedsSharing | SearchManager.cpp:404-407 | with partial sharing off, PBD is ignored |
| Dispatch.PsrUnknownSenderKept | SearchManager.cpp:389-402 | a PSR whose CID names no other user is still handed on, marked for the NMDC lookup |
| Dispatch.UbnSkipsCidCheck | SearchManager.cpp:423-432 | UBN drops its first parameter without checking it |
| Dispatch.EmptyDatagramThrows | SearchManager.cpp:363 | the empty datagram throws out_of_range at the first `compare(1, ...)` |
| Dispatch.EmptyDecryptionThrows | SearchManager.cpp:258-363 | a taken decryption with a zero at offset 16 leaves an empty text, which throws |
| Dispatch.AfterCid | SearchManager.cpp:365-376 | the remaining parameters exist exactly when there is a first parameter of length 39, and are the ones after it |
| Dispatch.Chars | SearchManager.cpp:222 | the std::string holds one character per byte, with the same code |
| LegacyReply.ParseSr | SearchManager.cpp:264-330 | the `$SR` cutter; stated by FileRoundTrip, DirectoryRoundTrip, ParseSrFile, ParseSrDirectory, ParseSrOtherCount and MissingDelimiterDrops: the nick runs to the first space, the 0x05 count picks the directory or file branch, the tail gives the slots, hub name and address, and a missing delimiter gives no record |
| LegacyReply.NameHead | SearchManager.cpp:275-308 | the name part ends within the text, at or after the nick's space; ParseSrDirectory, ParseSrFile and ParseSrOtherCount state the branch each 0x05 count takes |
| LegacyReply.TailRecord | SearchManager.cpp:309-330 | the record cut at the tail delimiters; stated by FileRoundTrip and DirectoryRoundTrip: free and total slots as uint8_t, hub name and address read back as built |
| LegacyReply.DirectoryHead | SearchManager.cpp:282-297 | a directory name runs from the name start to a space, gets '\\' appended and has size 0; that space is the last one before the last 0x05 (the last space of all when the 0x05 is at offset 0), and a head is found whenever a space lies between the name start and the last 0x05 |
| LegacyReply.FileHead | SearchManager.cpp:298-307 | a file name runs to the first 0x05 and contains none |
| LegacyReply.FileHeadEnds | SearchManager.cpp:298-307 | the file name is the text up to the first 0x05 and holds none; the head ends at the next space, and the size is the number read from the text between |
| LegacyReply.TailDelims | SearchManager.cpp:311-327 | the tail delimiters come in order: '/', then 0x05 after it, then " (" and ')' within the record |
| LegacyReply.Tail | SearchManager.cpp:309-330 | the record keeps the nick, kind, name and size cut before the tail |
| LegacyReply.ParseSrDirectory | SearchManager.cpp:268-297 | a count of one 0x05 after the nick gives a directory whose name is the text up to the last space before the last 0x05, plus '\\' |
| LegacyReply.ParseSrFile | SearchManager.cpp:268-307 | a count of two gives a file whose name ends at the first 0x05 and whose size is the number read between that 0x05 and the next space |
| LegacyReply.ParseSrOtherCount | SearchManager.cpp:276-308 | any other count still parses, as a file with an empty name and size 0 |
| LegacyReply.MissingDelimiterDrops | SearchManager.cpp:311-328 | a missing '/', " (" or ')' gives no record |
| LegacyReply.SrOutcome | SearchManager.cpp:338-361 | the decision after the cut; stated by SrKeptIff and ExampleFileParsed: no result for an unknown user, and a file needs a "TTH:" hash unless LAN mode is on |
| LegacyReply.SrKeptIff | SearchManager.cpp:338-356 | a parsed record leads to a result exactly when its user is found and it is a directory, or LAN mode is on, or the hub field is "TTH:" plus a non-empty hash |
| LegacyReply.ExampleFileParsed | SearchManager.cpp:264-361 | the record `$SR alice path/to/file.txt\x0512345 3/5\x05TestHub (1.2.3.4:411)` gives free slots 3, total 5, hub "TestHub" and address "1.2.3.4:411"; it is kept only in LAN mode |
| LegacyRoundTrip.FileRoundTrip | SearchManager.cpp:264-330 | for every nick without a space, name, hub name and address without 0x05, and address without " (", the file record built from nick, name, size, free and total slots, hub name and address parses back to exactly those fields, with the slot counts truncated to uint8_t |
| LegacyRoundTrip.DirectoryRoundTrip | SearchManager.cpp:264-330 | under the same conditions and a non-empty name, which may hold spaces, the directory record parses back to its fields, the name with '\\' appended and size 0 |
| LegacyReply.ExampleHubCarriesNoTth | SearchManager.cpp:348 | the hub name "TestHub" does not carry a hash |
| AdcTags.LastIndex | SearchManager.cpp:478-491 | the index found is the last parameter with the tag; none later has it; when there is none, no parameter has it |
| AdcTags.LastTaggedStep | SearchManager.cpp:478-491 | one more parameter replaces the value exactly when it carries the tag (the last occurrence wins) |
| AdcTags.LastTaggedAppend | SearchManager.cpp:478-491 | appending a parameter replaces the value exactly when it carries the tag |
| AdcTags.FirstTaggedFrom | SearchManager.cpp:449 | `getParam(tag, start)` finds a value exactly when some parameter at or after start carries the tag; the value is the text after the tag of the first such parameter |
| AdcTags.Tokens | SearchManager.cpp:639 | no token contains the separator |
| AdcTags.TokensJoin | SearchManager.cpp:639 | splitting a join of non-empty, separator-free tokens gives the tokens back |
| AdcTags.JoinSnoc | SearchManager.cpp:776-779 | joining one more token adds the separator and the token at the end |
| AdcTags.NmdcFile | SearchManager.cpp:481 | the NMDC name drops the leading '/' and turns every other '/' into '\\' |
| AdcReplies.ScanRes | SearchManager.cpp:478-491 | the scan loop gives the last FN, SL, SI, TR and TO values |
| AdcReplies.ResOutcome | SearchManager.cpp:493-526 | the decision of onRES; stated by ResKeptIff, ResKindAndName, ResUnknownTokenKept, ResKnownToken and ResSlotsMinusOneDrops |
| AdcReplies.ResKeptIff | SearchManager.cpp:493-511 | RES yields a result exactly when FN (non-empty after conversion), SL and SI appeared with SL and SI not -1, and the name ends in '\\' or TR is non-empty |
| AdcReplies.ResKindAndName | SearchManager.cpp:509-525 | the result is a directory exactly when the converted name ends in '\\'; it carries the converted name, the size and the free slots truncated to uint8_t |
| AdcReplies.ResUnknownTokenKept | SearchManager.cpp:498-507 | an unknown TO token does not drop the result: the hub URL and local token are empty |
| AdcReplies.ResKnownToken | SearchManager.cpp:502-506 | a known TO token gives the stored hub URL and local token |
| AdcReplies.ResSlotsMinusOneDrops | SearchManager.cpp:483-493 | a last SL of -1 is taken as missing and drops the result |
| AdcReplies.DsrOutcomeOf | SearchManager.cpp:446-469 | the decision of onDSR; stated by DsrResultIff and DsrEndSkipsFirstParameter, and OnDsr's loop is proved equal to it |
| AdcReplies.OnDsr | SearchManager.cpp:446-469 | the scan returns the specified DSR outcome |
| AdcReplies.DsrResultIff | SearchManager.cpp:446-468 | a direct-search result exactly when there is no ED1 flag and the last FN and TO are non-empty; an end event exactly when ED1 is present |
| AdcReplies.DsrEndSkipsFirstParameter | SearchManager.cpp:448-450 | the end event's token is searched from the second parameter on, so a TO in first place is missed |
| AdcReplies.PortField | SearchManager.cpp:629 | the port as written, the low byte of the uint16_t value as one character; stated by PortFieldLosesPort and PortFormsAgreeOnPresence |
| AdcReplies.PortText | SearchManager.cpp:629 | the corrected port, the decimal text of the uint16_t value; stated by PortTextKeepsPort and PortFormsAgreeOnPresence |
| AdcReplies.CountField | SearchManager.cpp:637 | PC times two in uint32_t, 0 when PC is missing; stated by PartialCountWraps and PsrCountsBack |
| AdcReplies.PortFieldLosesPort | SearchManager.cpp:629 | as written, port 1511 is stored as the single character 231, which reads back as 0 |
| AdcReplies.PortTextKeepsPort | SearchManager.cpp:629 | the port as decimal text is present exactly when U4 is, and reads back as the port sent |
| AdcReplies.PortFormsAgreeOnPresence | SearchManager.cpp:629 | both forms of the port are empty exactly when U4 is missing |
| AdcReplies.PartValues | SearchManager.cpp:640-641 | one value per token, each truncated to uint16_t |
| AdcReplies.PiValuesStep | SearchManager.cpp:638-642 | every PI parameter appends its values (PI accumulates, it is not last-wins) |
| AdcReplies.AppendParts | SearchManager.cpp:640-642 | the inner loop appends the truncated values of all tokens in order |
| AdcReplies.ScanPsr | SearchManager.cpp:626-644 | the scan gives the last NI, HI, TR and PC values (PC doubled in uint32_t) and all PI values in order; the last U4 value is kept as PortText, the decimal text of its uint16_t value, which is the corrected form of line 629 recorded under Findings |
| AdcReplies.PsrOutcome | SearchManager.cpp:646-685 | the decision of onPSR; stated by PsrHandledIff |
| AdcReplies.PsrHandledIff | SearchManager.cpp:646-685 | the parts are handled exactly when the sender is known, or is an NMDC user found with non-empty nick and hub, and the value count equals the doubled PC; a reply goes out exactly when U4 was present and the queue offered parts, and it carries "U40"; the reply opens with NI and our nick only when the sender is an NMDC user and we have a nick on that hub, and with HI otherwise (line 673) |
| AdcReplies.ScanPbd | SearchManager.cpp:548-569 | the scan gives the last HI, BU and TH values and sets each flag when its tag appears |
| AdcReplies.PbdEffects | SearchManager.cpp:571-614 | the queue calls and reply of onPBD, in order; stated by PbdWithoutTth, PbdUpdateExclusive and PbdReplyFlags |
| AdcReplies.PbdWithoutTth | SearchManager.cpp:571-579 | without TH the only effect is the removal of the notification, when RM and BU are present |
| AdcReplies.PbdUpdateExclusive | SearchManager.cpp:583-586 | UP ends processing with the update: no notify, no reply and no TTH-list add follow |
| AdcReplies.PbdReplyFlags | SearchManager.cpp:596-614 | with RE and the queue's consent, the reply PBD carries the local bundle and the queue's flags, and the TTH list is added exactly when AD was present |
| PartsCodec.PartsString | SearchManager.cpp:772-780 | the comma join of the values in decimal; GetPartsString's loop is proved equal to it, and PartsTokens and PartsRoundTrip read it back |
| PartsCodec.Decimals | SearchManager.cpp:776 | each part value becomes its decimal text, in order |
| PartsCodec.GetPartsString | SearchManager.cpp:772-780 | the pairwise loop, with the last comma dropped, returns the comma join of all values |
| PartsCodec.PairStep | SearchManager.cpp:775-776 | each pair adds "a,b" after a comma, except for the first pair |
| PartsCodec.ToPsr | SearchManager.cpp:783-796 | the command built is PSR |
| PartsCodec.ToPbd | SearchManager.cpp:798-814 | the command built is PBD |
| RoundTrip.PartsTokens | SearchManager.cpp:772-780 | splitting the parts string on ',' gives the decimal text of each value |
| RoundTrip.PartsRoundTrip | SearchManager.cpp:772-780 | for uint16_t values, reading the parts string back gives the list back |
| RoundTrip.PsrLayout | SearchManager.cpp:783-796 | toPSR emits NI (only when the nick is non-empty), HI, U4, TR, PC and PI in that order |
| RoundTrip.PsrNamesBack | SearchManager.cpp:626-644 | scanning toPSR's parameters gives back the nick, hub address and hash |
| RoundTrip.PsrCountsBack | SearchManager.cpp:783-796 | scanning back gives a doubled PC equal to the number of values, and U4 as the port or "0" |
| RoundTrip.PsrRoundTrip | SearchManager.cpp:783-796 | a PSR built by toPSR passes the count check in onPSR and yields its own part list |
| RoundTrip.PsrPartsBack | SearchManager.cpp:638-642 | a single PI parameter holding the parts string reads back as the list |
| RoundTrip.PbdLayout | SearchManager.cpp:798-814 | toPBD emits HI, BU, TH, then NO1 or RE1 (NO1 wins), then AD1 when adding |
| RoundTrip.PbdNamesBack | SearchManager.cpp:798-803 | scanning toPBD's parameters gives back hub address, bundle and hash |
| RoundTrip.PbdFlagsBack | SearchManager.cpp:798-812 | scanning back gives notify and add as sent, reply only when notify was off, and never update or remove |
| RoundTrip.PbdRoundTrip | SearchManager.cpp:798-814 | the whole scanned PBD record equals the values toPBD was given |
| RoundTrip.PartialCountWraps | SearchManager.cpp:637 | PC 2147483650 doubles to 4 in uint32_t |
| Correlator.Sweep | SearchManager.cpp:530-540 | exactly the entries with time + 60000 < tick are removed; the others keep their values |
| Correlator.Requests | SearchManager.cpp:122-139 | one request per hub |
| Correlator.Issue | SearchManager.cpp:113-117 | the table after a search's entries; stated by IssueFrame, IssueKeys and IssueEntry |
| Correlator.IsAdcs | SearchManager.cpp:130 | `strnicmp("adcs://", hub, 7) == 0`; stated by RequestKeyIff and AdcsAnyCase |
| Correlator.IssueFrame | SearchManager.cpp:113-117 | a search leaves every entry whose token was not drawn unchanged |
| Correlator.IssueKeys | SearchManager.cpp:113-117 | after a search the token set is the old one plus the drawn tokens |
| Correlator.IssueEntry | SearchManager.cpp:113-117 | with distinct tokens, each hub's token maps to (tick, caller's token, hub) |
| Correlator.SweepBoundary | SearchManager.cpp:533 | an entry exactly 60000 ms old survives; one 60001 ms old is removed |
| Correlator.SweepIdempotentMonotone | SearchManager.cpp:530-540 | a second sweep at the same tick removes nothing, and a later sweep keeps no more entries |
| Correlator.TwoHubSearch | SearchManager.cpp:104-117 | a search of two hubs enters both under their own tokens, and both survive a sweep within a minute |
| Correlator.RequestKeyIff | SearchManager.cpp:128-131 | each request carries its hub's token, and the key exactly when the hub address starts with adcs:// in any case |
| Correlator.AdcsAnyCase | SearchManager.cpp:130 | the adcs:// test ignores case and needs all seven characters |
| Manager.SearchManager.Search | SearchManager.cpp:104-139 | one key is appended, the table becomes the specified issue of the drawn tokens, the type table is unchanged, and one request per hub is returned |
| Manager.SearchManager.OnMinute | SearchManager.cpp:530-540 | the erase-and-restart loop leaves exactly the specified sweep and changes nothing else |
| Manager.SearchManager.constructor | SearchManager.cpp:66-72 | no keys, no searches, and the default search types |
| Manager.SearchManager.ValidateSearchTypeName | SearchManager.cpp:816-825 | the loop over the built-in type strings returns the specified name check |
| Manager.SearchManager.SetSearchTypeDefaults | SearchManager.cpp:827-836 | the table becomes the default table and stays sorted |
| Manager.SearchManager.AddSearchType | SearchManager.cpp:841-855 | an existing or invalid name fails and leaves the table unchanged; otherwise the name is entered |
| Manager.SearchManager.DelSearchType | SearchManager.cpp:857-864 | a valid name is erased (a missing one is no error); an invalid name leaves the table unchanged |
| Manager.SearchManager.RenameSearchType | SearchManager.cpp:866-875 | failure leaves the table unchanged; success gives the specified rename |
| Manager.SearchManager.ModSearchType | SearchManager.cpp:877-895 | a missing name fails with no change; otherwise only that name's extensions are replaced |
| Manager.SearchManager.GetSearchTypeByPos | SearchManager.cpp:897-930 | the counter loop returns the specified positional lookup |
| Manager.Normalized | SearchManager.cpp:88-96 | same length; tab, line feed and carriage return become spaces and every other character is kept |
| Manager.NormalizeWhitespace | SearchManager.cpp:88-96 | the search-and-overwrite loop returns the normalized string |
| Manager.NormalizedProperties | SearchManager.cpp:88-96 | no tab, line feed or carriage return is left, other characters stay, and a second pass changes nothing |
| SearchTypes.ToMapKeys | SearchManager.cpp:889-895 | a name is in the table exactly when some entry has it |
| SearchTypes.ToMapAt | SearchManager.cpp:915-924 | in a sorted table, every entry is what the map gives for its name |
| SearchTypes.Assign | SearchManager.cpp:852 | `searchTypes[name] = exts` on the ordered table; stated by AssignMap and AssignSorted |
| SearchTypes.AssignMap | SearchManager.cpp:852 | `searchTypes[name] = exts` updates exactly that name |
| SearchTypes.AssignSorted | SearchManager.cpp:852 | assignment keeps the table in name order |
| SearchTypes.Erase | SearchManager.cpp:861 | erasing never grows the table |
| SearchTypes.EraseMap | SearchManager.cpp:861 | erase removes exactly that name |
| SearchTypes.EraseSorted | SearchManager.cpp:861 | erase keeps the table in name order |
| SearchTypes.LessIrreflexive | SearchManager.cpp:915 | the std::map name order is irreflexive |
| SearchTypes.LessTransitive | SearchManager.cpp:915 | the std::map name order is transitive |
| SearchTypes.LessTotal | SearchManager.cpp:915 | the std::map name order is total |
| SearchTypes.IsDefaultTypeStr | SearchManager.cpp:62-64 | a single character '0' to '8'; stated by DefaultTypeStrings |
| SearchTypes.DefaultTypeStrings | SearchManager.cpp:62-64 | `isDefaultTypeStr` holds exactly for "0" to "8" |
| SearchTypes.NameCheck | SearchManager.cpp:816-825 | validateSearchTypeName's outcome; stated by NameCheckIff, and ValidateSearchTypeName's loop is proved equal to it |
| SearchTypes.NameCheckIff | SearchManager.cpp:816-825 | a name is valid exactly when it is non-empty, not one of '0'..'8', and no built-in type string |
| SearchTypes.AddStatus | SearchManager.cpp:841-850 | an invalid name (unless validated) fails first, then an existing name; AddSearchType states that success enters the name and failure changes nothing |
| SearchTypes.RenameStatus | SearchManager.cpp:866-869 | the new name is validated, then the old name must exist, then the new name must not; stated by RenameMoves and RenameSearchType |
| SearchTypes.Renamed | SearchManager.cpp:868-873 | the old extensions under the new name and the old name erased; stated by RenameMoves |
| SearchTypes.RenameMoves | SearchManager.cpp:866-875 | a successful rename moves the old name's extensions to the new name, removes the old name, and keeps every other name and the size |
| SearchTypes.PosCode | SearchManager.cpp:917-922 | only the names "1" to "6" are default types, with their digit as the code; every other name is TYPE_ANY |
| SearchTypes.PosCodeIff | SearchManager.cpp:917-922 | PosCode is not TYPE_ANY exactly when the name is one of "1" to "6", and then it is that digit |
| SearchTypes.TypeByPos | SearchManager.cpp:897-930 | the positional lookup fails exactly when the position is past the table |
| SearchTypes.TypeByName | SearchManager.cpp:932-959 | the name-based getSearchType; stated by ByNameFailsIff, ByNameFindsEntry, ByNameShortCircuits, OverloadsDisagree and DefaultsAreDefaultTypes |
| SearchTypes.ByNameFailsIff | SearchManager.cpp:932-959 | the named lookup throws exactly for the empty name, or for a name that does not start with '0', '7' or '8' and is not in the table |
| SearchTypes.OverloadsDisagree | SearchManager.cpp:915-955 | a custom name "3foo" has type 3 by name but TYPE_ANY by position |
| SearchTypes.ByPosCoversTable | SearchManager.cpp:912-925 | position i + 3 gives the i-th entry's name and extensions |
| SearchTypes.ByNameFindsEntry | SearchManager.cpp:947-956 | a stored name not starting with '0', '7' or '8' gives its extensions and a type of 0 to 6 |
| SearchTypes.ByNameShortCircuits | SearchManager.cpp:937-939 | a valid custom name such as "7zip" is answered by its first character alone |
| SearchTypes.Defaults | SearchManager.cpp:827-836 | the table setSearchTypeDefaults builds; stated by DefaultsDigits, DefaultNamesDistinct and DefaultsAreDefaultTypes, and SetSearchTypeDefaults leaves it |
| SearchTypes.DefaultsDigits | SearchManager.cpp:827-836 | the defaults hold '1', '2', ... mapped to the hub's extension lists in order |
| SearchTypes.DefaultNamesDistinct | SearchManager.cpp:835 | distinct positions give distinct one-character names |
| SearchTypes.DefaultsAreDefaultTypes | SearchManager.cpp:827-836 | with six lists, each default name is a default type string, and looking it up by name gives type i + 1 |
| Numbers.Atoi | SearchManager.cpp:307-319 | `Util::toInt` and `Util::toInt64` over unbounded integers; stated by LeadingDigits (the digits read are the longest run) and AtoiToDecimal (a decimal text reads back as its number) |
| Numbers.LeadingDigits | SearchManager.cpp:307-314 | the digit prefix read by the number conversion is the longest run of digits |
| Numbers.ToDecimal | SearchManager.cpp:776 | the decimal text is non-empty, all digits, and has no leading zero |
| Numbers.DigitsValueToDecimal | SearchManager.cpp:776 | the decimal text has the number's value |
| Numbers.AtoiToDecimal | SearchManager.cpp:641 | reading the decimal text back gives the number |
| Numbers.U8 | SearchManager.cpp:314-319 | the uint8_t cast lies in 0..255 and keeps values already in range |
| Numbers.U16 | SearchManager.cpp:629-641 | the uint16_t cast lies in 0..65535 and keeps values already in range |
| Numbers.U32 | SearchManager.cpp:637 | the uint32_t arithmetic lies in 0..2^32-1 and keeps values already in range |
| Strings.Find | SearchManager.cpp:269-316 | `find` returns the first occurrence at or after the start, and none when there is none |
| Strings.RFind | SearchManager.cpp:287-326 | `rfind` returns the last occurrence |
| Strings.RFindBefore | SearchManager.cpp:291 | `rfind(c, j - 1)` returns the last occurrence before j |
| Strings.RFindPair | SearchManager.cpp:321 | `rfind(" (")` returns the last position of the pair |
| Strings.CountFrom | SearchManager.cpp:276 | the count is at most the length searched |
| Strings.CountOneFind | SearchManager.cpp:276-299 | with a count of one, find reaches that single occurrence |
| Strings.CountPositive | SearchManager.cpp:276 | an occurrence makes the count positive |
| Strings.CountZeroNone | SearchManager.cpp:276 | a count of zero means no occurrence |
| Strings.SubstrTo | SearchManager.cpp:324-330 | `substr(i, j - i)` is the slice when j >= i, and the rest of the string when j < i |
| Messages.Added | airdcpp/MessageCache.h:88-95 | the queue after `add`; stated by AddDropsAtMostOldest, AddKeepsBound, AddAllKeepsNewest, ZeroLimitStaysEmpty and NegativeLimitKeepsAll, and Add leaves it |
| Messages.MessageCache.Add | airdcpp/MessageCache.h:88-95 | push at the back, then pop the front when the size exceeds the limit as an unsigned size |
| Messages.AddDropsAtMostOldest | airdcpp/MessageCache.h:90-94 | one add keeps everything and appends when within the limit; otherwise it drops exactly the oldest message |
| Messages.AddKeepsBound | airdcpp/MessageCache.h:90-94 | a cache within a non-negative limit stays within it |
| Messages.AddAllKeepsNewest | airdcpp/MessageCache.h:88-95 | from a cache within the limit, any series of adds leaves exactly the newest `limit` messages in insertion order (eviction is first in, first out) |
| Messages.ZeroLimitStaysEmpty | airdcpp/MessageCache.h:90-94 | with limit 0 the cache stays empty |
| Messages.NegativeLimitKeepsAll | airdcpp/MessageCache.h:92 | a negative limit never evicts, because `size_t > int` converts it to a huge unsigned value |
| Messages.AsSize | airdcpp/MessageCache.h:92 | a non-negative limit compares as itself; a negative one compares as at least 2^64 - 2^31 |
| Messages.MessageCache.SetRead | airdcpp/MessageCache.h:49-65 | returns the number of unread messages and marks every message read, changing nothing else |
| Messages.MarkedRead | airdcpp/MessageCache.h:52-62 | each message keeps its place, type and text, with its flag set |
| Messages.NothingUnreadAfterMarking | airdcpp/MessageCache.h:49-86 | after setRead a second setRead returns 0 and countUnread is 0 for both types |
| Messages.UnreadAllSplits | airdcpp/MessageCache.h:52-86 | the count setRead returns is the unread chat count plus the unread log count |
| Messages.MessageCache.CountUnread | airdcpp/MessageCache.h:72-86 | the fold equals the number of unread messages of that type |
| Messages.AccumulateCounts | airdcpp/MessageCache.h:74-85 | the left fold from any start value adds exactly the number of unread messages of the type |
| Messages.UnreadOfTypeFront | airdcpp/MessageCache.h:74-85 | counting from the front agrees with counting from the back |
| Messages.NoUnreadIff | airdcpp/MessageCache.h:72-86 | countUnread(t) is 0 exactly when every message of type t is read |
| Messages.MessageCache.Size | airdcpp/MessageCache.h:67-70 | the number of messages, which is at least the number of unread ones |
| Messages.UnreadAtMost | airdcpp/MessageCache.h:49-70 | no more messages are unread than there are messages |
| Messages.MessageCache.GetMessages | airdcpp/MessageCache.h:44-47 | the messages in queue order |
| Messages.MessageCache.constructor | airdcpp/MessageCache.h:34 | a new cache is empty |
| Messages.MessageCache.Copy | airdcpp/MessageCache.h:35-37 | the copy holds the other cache's messages |

`size`, `getMessages` and `countUnread` are Dafny functions that only read the cache, so they cannot change it.

## Left out

- AES-128-CBC decryption (OpenSSL EVP) is the parameter `decrypt`.
  - The model reads all of the output, including the last block. The real `EVP_DecryptUpdate` with padding enabled holds that block back for `EVP_DecryptFinal_ex`.
  - `RAND_bytes`, the Base32 encoding of the key and the drawing of random hub tokens are inputs of `Search`.
  - The Tiger hash that `onRES` computes for directories and in LAN mode is recorded only as "derived from name and size".
- UDP socket I/O is not modelled, because it is I/O:
  - `listen`, `disconnect` and `run`;
  - the rebind backoff;
  - the thread join.
- Calls into the user, hub, queue, upload and share managers become parameters or recorded effects:
  - `respond` and `respondDirect` are not modelled;
  - the event lists of `onPBD` stand for the queue calls;
  - the PSR reply is returned, not sent;
  - `setIPUser` is not recorded;
  - charset conversion is the identity: `Text::toUtf8` on the `$SR` fields (SearchManager.cpp:334-336) and `Text::utf8ToAcp` on the nick that toPSR sends (SearchManager.cpp:787).
- The AdcCommand parser and its escaping are not part of this model: the parse is the parameter `parse`.
- Listener notifications (`fire(...)`) are not modelled; each handler's outcome value stands for the event it would fire.
- Locks (`RLock`, `WLock`, `SharedMutex`) are left out because they are concurrency. `MessageCache::setRead` changes messages under a read lock (airdcpp/MessageCache.h:50), which races with other readers.
- StringTokenizer, `Util::toNmdcFile`, `AdcCommand::getParam` and `AdcCommand::hasFlag` are not part of this model; their behaviour is assumed as follows:
  - AdcTags.Tokens keeps an empty piece between two separators, so "1,,2" gives three values, and drops an empty piece after the last separator. A tokenizer that dropped every empty piece would give two.
  - AdcTags.NmdcFile drops the first character (the root '/') and turns every other '/' into '\\'.
  - AdcTags.FirstTaggedFrom takes `getParam(tag, start)` as the value after the tag of the first parameter at or after `start` that carries it.
  - AdcTags.HasFlag takes `hasFlag(tag + "1", start)` as some parameter at or after `start` being exactly the tag followed by '1'.
- Loading and saving search types through SimpleXML is file I/O and is not modelled.
- `getExtensions` is not modelled separately: it is `getSearchType(name)`, which `RenameSearchType` and `ModSearchType` use through the table lookup.
- `getTypeStr` and the type strings are the English resource strings. Localised resources are not part of this model.
- SearchManager.h is not part of this model. The codes TYPE_ANY = 0, TYPE_DIRECTORY = 7 and TYPE_TTH = 8, and the names "0", "7" and "8", are inferred from `type = aName[0] - '0'` at line 938.
- The Launcher programs are not modelled, being installer utilities outside the search engine.
- Manager.SearchManager.Search: GET_TICK is read once for all hubs, whereas the source reads the clock once per hub.
- Manager.SearchManager.Search: the returned value (the longest estimated search span) is not modelled; the method returns the requests instead.
- Messages.MessageCache.Size: the `static_cast<int>` of a size of 2^31 or more is not modelled.
- Messages.MessageCache.SetRead: the count is not limited to int.
- Messages.Message: the read flag is a field of the cached value. In the source it lives in a ChatMessage or LogMessage object shared with other holders, so they see the change too.
- Numbers.U8, Numbers.U16 and Numbers.U32 take `Util::toInt` as unbounded `atoi`. The C library's behaviour on overflow of int or int64 is not modelled.
- The model follows the code in these cases:
  - A `$SR` file record whose hub field lacks "TTH:" is kept only in LAN mode.
  - A 0x05 count other than 1 or 2 continues as a file with an empty name instead of being dropped.
  - An empty plaintext throws out_of_range (`Dispatch.OutOfRange`) instead of being ignored.

## Findings

| source | as written | input that shows it | evidently intended | confidence | as-written member | corrected member |
|---|---|---|---|---|---|---|
| SearchManager.cpp:629 | `udpPort = static_cast<uint16_t>(Util::toInt(...))` assigns the number to a `std::string`, which takes it as one character: the port's low byte | a PSR with `U41511` stores the single character 231, which reads back as port 0 | store the port as its decimal text, as `setIPUser` and the partial source expect | high; not executed | AdcReplies.PortFieldLosesPort | AdcReplies.PortTextKeepsPort |

The scan of onPSR (`AdcReplies.ScanPsr`) uses the corrected `AdcReplies.PortText`. `AdcReplies.PortFormsAgreeOnPresence` shows that the two forms are empty for the same inputs. So every decision of onPSR, which only tests the port for emptiness, is the same under both.

