# vipnet_interface search layer in Dafny

This project models the search layer of vipnet_interface, a Rails inventory of ViPNet network nodes. It covers three parts.

- **IPv4 arithmetic** (`lib/i_pv4.rb`) is modelled in `ipv4.dfy`:
  - `ip?` recognises a dotted quad;
  - `u32` and `ip` convert between a dotted quad and an unsigned 32-bit integer;
  - `cidr` and `range` parse `addr/mask` and `addr1-addr2`;
  - `u32_bounds` gives the inclusive numeric bounds such input denotes.

  The Ruby these methods rely on is written out in `text.dfy` and `bits.dfy`:
  - `String#split` drops trailing empty fields;
  - `to_i` and `to_s(16)` convert between numerals and integers;
  - `rjust` pads a string on the left;
  - `>>`, `<<` and `&` are defined on natural numbers.

  `ip?`, `u32`, `cidr`, `range` and `u32_bounds` exactly as written, with their line-anchored regular expressions and `String#to_i` reading, are modelled in `line_anchors.dfy`. Each has a lemma that it agrees with the corresponding `ipv4.dfy` function on input without a line break, and one that exhibits the difference.
- **The node searches** (`app/models/ncc_node.rb`) are modelled in `ncc_node.dfy`.
  - The `vid` validations are covered.
  - So are the `where_*_like` class methods. They are queries over in-memory tables (`Db`) and return the set of current node rows they select.
  - The SQL `LIKE`/`ILIKE` matcher and the wildcard escaping are in `like.dfy`.
  - The rewrite of a name into a regular expression is in `name_pattern.dfy`.
  - The worked CIDR and range examples are in `address_examples.dfy`.
- **NodeIp validation** (`app/models/node_ip.rb`) is modelled in `node_ip.dfy`. It is a class `NodeIpTable` that holds the stored rows. Its `Insert` runs the three validations and stores the record only when none fails.

The external identifier parser `VipnetParser::id` is an oracle: `WhereVidLike` takes its answer, the candidate vids, as a parameter. Query results are sets because the queries carry no `ORDER BY`, and rows repeated by a join are the same node.

## Model

| member | source | states |
|---|---|---|
| IPv4.IsAddress | lib/i_pv4.rb:2-11 | ip?: split on "." gives exactly four digit fields of value at most 255; IPv4.AddressShape characterises the strings it accepts |
| IPv4.U32 | lib/i_pv4.rb:26-31 | u32 is nil exactly when ip? is false |
| IPv4.U32Value | lib/i_pv4.rb:26-31 | for an address, u32 is the big-endian base-256 value of its four octets, and at most 4294967295 |
| IPv4.HexOctet | lib/i_pv4.rb:30 | `to_i.to_s(16).rjust(2, "0")` of an octet is a hex numeral with the octet's value |
| IPv4.HexOctetsValue | lib/i_pv4.rb:30 | the joined two-digit hex octets read as one hex number give the big-endian value |
| IPv4.Hex8 | lib/i_pv4.rb:38 | `to_s(16).rjust(8, "0")` has the value n and, for n ≤ 0xffffffff, exactly 8 digits |
| IPv4.Pairs | lib/i_pv4.rb:38 | `each_slice(2)` makes ⌈len/2⌉ pieces |
| IPv4.PairValues | lib/i_pv4.rb:38-40 | the four two-digit pieces of the 8-digit hex form are the four big-endian bytes of n |
| IPv4.Ip | lib/i_pv4.rb:33-41 | ip is nil exactly when the argument is not numeric or lies outside [0, 0xffffffff] |
| IPv4.IpValue | lib/i_pv4.rb:33-41 | ip(n) is the four bytes of n in decimal, joined with "." |
| IPv4.DecimalPairs | lib/i_pv4.rb:40 | each piece becomes a canonical decimal numeral of the same value |
| IPv4.Bytes | lib/i_pv4.rb:38-40 | the four bytes are each ≤ 255 and their big-endian value is n |
| IPv4.BigEndianInjective | lib/i_pv4.rb:30 | different octet sequences have different u32 values |
| IPv4.DottedAddress | lib/i_pv4.rb:2-11 | four octets written in decimal and joined with "." pass ip? and read back as those octets |
| IPv4.U32OfIp | lib/i_pv4.rb:26-41 | round trip: u32(ip(n)) == n for every n in [0, 4294967295] |
| IPv4.IpOfU32 | lib/i_pv4.rb:26-41 | round trip: ip(u32(s)) == s for every canonical dotted quad |
| IPv4.CanonicalOctets | lib/i_pv4.rb:2-11 | a canonical dotted quad passes ip? and is rebuilt from its octets |
| IPv4.AddressShape | lib/i_pv4.rb:2-11 | an address is its four octets joined with "." followed only by the trailing dots split drops |
| IPv4.AddressOfFields | lib/i_pv4.rb:2-11 | four octets joined with "." pass ip?, with any number of trailing dots |
| IPv4.AddressChars | lib/i_pv4.rb:2-11 | an address holds only digits and dots |
| IPv4.Cidr | lib/i_pv4.rb:13-24 | what cidr accepts is an address and a mask of at most 32 |
| IPv4.CidrOf | lib/i_pv4.rb:13-24 | address + "/" + digits is a CIDR exactly when the mask value is at most 32, and cidr returns the address and that value |
| IPv4.CidrShape | lib/i_pv4.rb:13-24 | whatever cidr accepts is the whole string: address, "/", decimal mask |
| IPv4.Range | lib/i_pv4.rb:43-56 | what range accepts is two addresses whose values are in order |
| IPv4.RangeOf | lib/i_pv4.rb:43-56 | two addresses around "-" form a range exactly when the first is not above the second |
| IPv4.RangeShape | lib/i_pv4.rb:43-56 | whatever range accepts is the whole string: low address, "-", high address |
| IPv4.U32Bounds | lib/i_pv4.rb:58-61 | u32_bounds is nil exactly when neither cidr nor range parses |
| IPv4.BlockBounds | lib/i_pv4.rb:64-67 | the CIDR branch's mask, block size and bounds; IPv4.CidrBounds proves they are the aligned block of 2^(32-p) addresses holding the address |
| IPv4.CidrBounds | lib/i_pv4.rb:63-67 | for a CIDR with prefix length p: lower is u32(addr) with the low 32-p bits cleared; the block has 2^(32-p) addresses; lower ≤ u32(addr) ≤ upper ≤ 4294967295; x is in the block exactly when x >> (32-p) equals u32(addr) >> (32-p) |
| IPv4.RangeBounds | lib/i_pv4.rb:68-73 | for a range the bounds are exactly [u32(low), u32(high)], in order |
| IPv4.AddressIsNotBlock | lib/i_pv4.rb:58-61 | a plain address is neither a CIDR nor a range, so u32_bounds is nil for it |
| IPv4.CidrExcludesRange | lib/i_pv4.rb:63-71 | no string is both a CIDR and a range, so the elsif branch never competes |
| Bits.MaskedBlock | lib/i_pv4.rb:64-67 | `0xffffffff >> k << k` and-ed with u clears the low k bits; `1 << k` is 2^k; the block fits below 2^32 |
| Bits.BlockMembers | lib/i_pv4.rb:64-67 | x lies in the block of u exactly when x >> k equals u >> k |
| AddressExamples.BlockOf24 | lib/i_pv4.rb:58-74 | 192.168.0.0/24 has bounds (3232235520, 3232235775), which hold .1 and .255 but not 192.168.1.0 |
| AddressExamples.RangeTo254 | lib/i_pv4.rb:58-74 | 192.168.0.0-192.168.0.254 has bounds (3232235520, 3232235774), which exclude .255 |
| Text.RubySplitShape | lib/i_pv4.rb:3 | `split` gives fields that, joined, rebuild the string up to its dropped trailing separators |
| Text.DecValueOfDecString | lib/i_pv4.rb:40 | `Integer#to_s` read back with `to_i` gives the number |
| LineAnchors.IsAddressAsWritten | lib/i_pv4.rb:2-11 | ip? as written: four fields, each with a line of digits and a to_i between 0 and 255; LineAnchors.AddressAsWrittenAgrees and LineAnchors.TrailingLineAccepted relate it to IPv4.IsAddress |
| LineAnchors.AddressAsWrittenAgrees | lib/i_pv4.rb:2-11 | on a string without a line break, ip? as written agrees with the whole-string check |
| LineAnchors.AddressAsWrittenWeaker | lib/i_pv4.rb:2-11 | everything the whole-string check accepts, ip? as written accepts too |
| LineAnchors.OctetAsWritten | lib/i_pv4.rb:6-7 | on a field without a line break, `=~ /^\d+$/` plus the to_i bound is the octet check |
| LineAnchors.TrailingLineAccepted | lib/i_pv4.rb:2-11 | ip? as written accepts an address followed by a line break and more text, which is not an address |
| LineAnchors.U32AsWritten | lib/i_pv4.rb:26-31 | u32 as written is nil exactly when ip? as written fails; otherwise the hex digits of each field's to_i, joined and read back |
| LineAnchors.U32AsWrittenAgrees | lib/i_pv4.rb:26-31 | on a string without a line break, u32 as written equals IPv4.U32 |
| LineAnchors.TrailingLineU32 | lib/i_pv4.rb:26-31 | u32 as written of an address followed by a line break and dot-free text is u32 of the address alone, where IPv4.U32 gives nil |
| LineAnchors.CidrAsWritten | lib/i_pv4.rb:13-24 | cidr as written: the groups around the last "/" of the first line holding one; what it returns is an address without a line break and a mask of at most 32 |
| LineAnchors.CidrAsWrittenAgrees | lib/i_pv4.rb:13-24 | on a string without a line break, cidr as written equals the whole-string cidr |
| LineAnchors.LeadingLineCidr | lib/i_pv4.rb:13-24 | cidr as written accepts a CIDR placed on the second line after arbitrary text, which the whole-string cidr rejects |
| LineAnchors.RangeAsWrittenAgrees | lib/i_pv4.rb:43-56 | on a string without a line break, range as written equals the whole-string range |
| LineAnchors.LeadingLineRange | lib/i_pv4.rb:43-56 | range as written accepts a range placed on the second line after arbitrary text, which the whole-string range rejects |
| LineAnchors.RangeAsWritten | lib/i_pv4.rb:43-56 | range as written: the groups around the last "-" of the first line holding one; what it returns is two addresses without line breaks |
| LineAnchors.U32BoundsAsWritten | lib/i_pv4.rb:58-74 | u32_bounds as written is nil exactly when neither cidr nor range as written parses; a CIDR takes precedence |
| LineAnchors.U32BoundsAsWrittenAgrees | lib/i_pv4.rb:58-74 | on a string without a line break, u32_bounds as written equals IPv4.U32Bounds |
| LineAnchors.LeadingLineBounds | lib/i_pv4.rb:58-74 | u32_bounds as written of a text line, a line break and a CIDR is the CIDR's block, so where_ip_like searches it; IPv4.U32Bounds gives nil |
| LineAnchors.RubyToIDigits | lib/i_pv4.rb:7 | `to_i` of a decimal numeral is its value |
| NccNodes.VidErrors | app/models/ncc_node.rb:7-13 | both vid validations run and each failure adds its error; NccNodes.VidAccepted says when the set is empty |
| NccNodes.VidAccepted | app/models/ncc_node.rb:7-13 | a vid passes validation exactly when it is present and matches `\A0x[0-9a-f]{8}\z`; nil fails both presence and format |
| NccNodes.VidOfU32 | app/models/ncc_node.rb:7-13 | "0x" and the eight hex digits of any 32-bit value form a valid vid |
| NccNodes.WhereVidLike | app/models/ncc_node.rb:15-23 | the loop's union is the current nodes whose vid is one of the candidates plus those whose vid ILIKE "%input%" |
| NccNodes.VidCandidateFound | app/models/ncc_node.rb:15-23 | every current node holding a candidate vid is found |
| NccNodes.VidSubstringFound | app/models/ncc_node.rb:15-23 | every current node whose vid contains the input, case ignored, is found |
| NccNodes.VidFoundCurrent | app/models/ncc_node.rb:15-23 | only current nodes are found |
| NccNodes.WhereNameLike | app/models/ncc_node.rb:25-29 | the current nodes whose name the rewritten input matches, case ignored; NccNodes.NameFound characterises them |
| NccNodes.NameFound | app/models/ncc_node.rb:25-29 | for input without regex metacharacters, a current node is found exactly when the input's space-separated words occur in its name in order, case ignored |
| NamePatterns.NamePattern | app/models/ncc_node.rb:26 | the pattern is as long as the name plus one per space |
| NamePatterns.NamePatternPlain | app/models/ncc_node.rb:26 | text without spaces is left unchanged |
| NamePatterns.NamePatternWords | app/models/ncc_node.rb:26 | words joined by a space become the same words joined by ".*" |
| NamePatterns.LowerNamePattern | app/models/ncc_node.rb:26-27 | lower-casing commutes with the rewrite, so `~*` may lower-case either side first |
| NamePatterns.MatchWords | app/models/ncc_node.rb:26-27 | the rewritten pattern matches at a position exactly when the words occur there in order |
| NamePatterns.NameMatchesWords | app/models/ncc_node.rb:25-29 | `name ~* rewritten` holds exactly when the input's words occur in the name in order, case ignored |
| NccNodes.WhereIpLike | app/models/ncc_node.rb:31-45 | an address selects the nodes with that u32; a CIDR or range selects the nodes with a u32 inside u32_bounds; anything else selects nothing |
| NccNodes.CidrSelectsNetwork | app/models/ncc_node.rb:38-43 | a CIDR selects exactly the current nodes with an address sharing the block's leading bits |
| NccNodes.RangeSelectsBetween | app/models/ncc_node.rb:38-43 | a range selects exactly the current nodes with an address between its two ends |
| NccNodes.WhereVersionDecodedLike | app/models/ncc_node.rb:47-53 | the current nodes with a hardware node whose decoded version is LIKE the escaped input between "%" signs; NccNodes.VersionFound characterises them |
| NccNodes.VersionFound | app/models/ncc_node.rb:47-53 | a current node is found exactly when one of its hardware nodes' decoded versions contains the input literally |
| LikePatterns.EscapedWildcardsLiteral | app/models/ncc_node.rb:49-52 | escaped "3_" and "%3" match nothing in "3.0", where the unescaped "3_" would match |
| NccNodes.WhereDateLike | app/models/ncc_node.rb:64-69 | the result is nil exactly when the field is neither "creation_date" nor "deletion_date" |
| NccNodes.DateFound | app/models/ncc_node.rb:64-69 | on a date column, a current node is found exactly when the column's text contains the input |
| NccNodes.WhereCreationDateLike | app/models/ncc_node.rb:56-58 | selects the current nodes whose creation_date text contains the input |
| NccNodes.WhereDeletionDateLike | app/models/ncc_node.rb:60-62 | selects the current nodes whose deletion_date text contains the input |
| NccNodes.WhereTicketLike | app/models/ncc_node.rb:71-76 | the current nodes with a ticket whose id is LIKE the unescaped input between "%" signs; NccNodes.TicketFoundExactly and NccNodes.TicketFound characterise them |
| NccNodes.TicketFound | app/models/ncc_node.rb:71-76 | a current node with a ticket of any system whose id contains the input is found |
| NccNodes.TicketFoundExactly | app/models/ncc_node.rb:71-76 | for input without "\", "_" and "%", a current node is found exactly when one of its tickets, of any system, has an id containing the input |
| NccNodes.TicketFoundHasTicket | app/models/ncc_node.rb:71-76 | only current nodes with a ticket are found |
| LikePatterns.EscapeChar | app/models/ncc_node.rb:49 | `gsub(c, "\\" + c)` adds one character per c |
| LikePatterns.EscapeLikeAsWritten | app/models/ncc_node.rb:49 | the two gsubs as written; LikePatterns.EscapeAsWrittenAgrees and LikePatterns.BackslashNotLiteral relate it to the complete escaping |
| LikePatterns.EscapeLike | app/models/ncc_node.rb:49 | the complete escaping, which also escapes "\"; LikePatterns.LikeContains proves it makes the search literal |
| LikePatterns.EscapeLikePlain | app/models/ncc_node.rb:49 | text without "\", "_" and "%" is left unchanged by the escaping |
| LikePatterns.LikeAnything | app/models/ncc_node.rb:52 | a lone "%" matches every text |
| LikePatterns.LikeLeadingPercent | app/models/ncc_node.rb:52 | a leading "%" lets the rest of the pattern match any suffix |
| LikePatterns.LikeEscapedPrefix | app/models/ncc_node.rb:49-52 | an escaped string matches exactly itself at the start of the text |
| LikePatterns.LikeContains | app/models/ncc_node.rb:49-52 | `LIKE "%" + escaped + "%"` holds exactly when the text contains the input |
| LikePatterns.LikeLiteralPrefix | app/models/ncc_node.rb:74 | an unescaped input without "\" still matches where it occurs literally |
| LikePatterns.LikeContainsUnescaped | app/models/ncc_node.rb:74 | `LIKE "%input%"` holds whenever the text contains an input without "\" |
| LikePatterns.EscapeAsWrittenAgrees | app/models/ncc_node.rb:49 | on input without "\", the escaping as written equals the complete escaping |
| LikePatterns.BackslashNotLiteral | app/models/ncc_node.rb:49-52 | with the escaping as written, the input a\b matches "ab" but not the text a\b |
| NodeIps.Errors | app/models/node_ip.rb:3-9 | every validation runs and each failure adds its error; NodeIps.Accepted says when the set is empty |
| NodeIps.NodeIpTable.Insert | app/models/node_ip.rb:3-9 | returns the failed validations; stores exactly the record when none fails and leaves the table unchanged otherwise; keeps keys unique and u32 values in range |
| NodeIps.Accepted | app/models/node_ip.rb:3-9 | an insert succeeds exactly when the (u32, hw_node_id, type) key is new, the hardware node exists and 0 ≤ u32.to_i ≤ 4294967295 |
| NodeIps.InsertKeepsValid | app/models/node_ip.rb:3-9 | an accepted insert keeps keys unique and values in range |
| NodeIps.DuplicateRejected | app/models/node_ip.rb:3 | a record whose key is already stored is rejected as taken |
| NodeIps.OtherScopeNotTaken | app/models/node_ip.rb:3 | the same u32 under another hw_node_id or another type is not taken |
| NodeIps.MissingHwNodeRejected | app/models/node_ip.rb:4 | a record without an existing hardware node is rejected |
| NodeIps.RangeBoundaries | app/models/node_ip.rb:5-9 | 0 and 4294967295 are accepted; -1 and 4294967296 are rejected |
| NodeIps.NilAddressInRange | app/models/node_ip.rb:5-9 | a nil u32 reads as 0 and passes the range check |
| NodeIps.RangeIsU32 | app/models/node_ip.rb:5-9 | the range check accepts exactly the values below 2^32 that are not negative |

## Left out

- `NccNode#availability` and `#accessips` are not modelled. They make HTTP requests and read environment variables and settings.
- `to_json_ncc` and `to_json_nonmagic` are not modelled. They depend on the JSON serializer and `eval`.
- The internals of `VipnetParser::id` and its `vid_search_threshold` are not modelled. The parser is an external gem, so its answer is a parameter.
- The associations (`belongs_to`, `has_many`, `dependent:`) and the network presence validation are not modelled. The tables are plain sequences and joins follow the id columns.
- Row order and duplicate rows in query results are not modelled. Results are sets.
- The rendering of timestamps by `::text` is not modelled. A date column holds its rendered text.
- Concurrent inserts are not modelled. The uniqueness validation is a query before the insert and is modelled as atomic.
- Floating-point arguments to `ip` are not modelled. `Arg` is an integer or not numeric at all.
- Ruby `to_i` radix prefixes and Unicode white space or case are not modelled. Only ASCII is lower-cased and only ASCII white space counts as blank.
- PostgreSQL rejects a LIKE pattern that ends in a lone "\". In the model such a pattern matches nothing.
- NamePatterns.MatchHere: the regex engine behind `~*` is modelled only for literal characters, "." and ".*". The metacharacters `* + ? [ ] ( ) { } | \ ^ $` in other positions are not modelled. This is why NccNodes.NameFound and NamePatterns.NameMatchesWords require input without them.
- NccNodes.VidSubstringFound requires input without "\". For such input an unescaped LIKE pattern is a literal substring search plus wildcards.
- NccNodes.TicketFound requires input without "\", for the same reason. It states only that containment is enough. An unescaped "_" or "%" in the input also matches other ticket ids. For input with none of "\", "_" and "%", NccNodes.TicketFoundExactly states both directions.
- NccNodes.VidOfU32 states only one direction: that every 32-bit vid is valid.
- NccNodes.WhereVersionDecodedLike uses the escaping corrected under "Findings", not the escaping as written. So do NccNodes.WhereDateLike and its two wrappers.
- NccNodes.WhereIpLike uses the whole-string IPv4.IsAddress, IPv4.U32, IPv4.Cidr, IPv4.Range and IPv4.U32Bounds corrected under "Findings". The line-anchored versions as written are in LineAnchors. A where_ip_like built on them is not modelled as a separate member. LineAnchors.LeadingLineBounds and LineAnchors.TrailingLineU32 show the inputs on which it would differ: for "x\n10.0.0.0/8" it would search the block 10.0.0.0/8, and for "1.2.3.4\nx" the address 1.2.3.4.
- History reconstruction is not part of this model, and neither is the search controller that combines these queries.

## Findings

| source | as written | input that shows it | evidently intended | confidence | as-written member | corrected member |
|---|---|---|---|---|---|---|
| lib/i_pv4.rb:6 | each octet is checked with `=~ /^\d+$/`, whose anchors match at line boundaries | "1.2.3.4\nx": the last field "4\nx" has the digit line "4" and to_i 4, so ip? is true and u32 gives the value of 1.2.3.4 (LineAnchors.TrailingLineU32) | every field consists of digits only (`\A\d+\z`) | high (not executed) | LineAnchors.TrailingLineAccepted | IPv4.AddressChars |
| lib/i_pv4.rb:14 | cidr matches `^(.*)\/(.*)$` line by line | "x\n10.0.0.0/8": the second line matches, so cidr returns ["10.0.0.0", 8] | the whole string is address "/" mask | high (not executed) | LineAnchors.LeadingLineCidr | IPv4.CidrShape |
| lib/i_pv4.rb:44 | range matches `^(.*)-(.*)$` line by line | "x\n10.0.0.1-10.0.0.2": the second line matches, so range returns both addresses | the whole string is address "-" address | high (not executed) | LineAnchors.LeadingLineRange | IPv4.RangeShape |
| app/models/ncc_node.rb:49 | only "_" and "%" are escaped, but "\" is the LIKE escape character too | version input a\b (three characters): the pattern "%a\b%" matches "ab" and not the text a\b | the input is searched literally, as for "_" and "%" | medium (not executed) | LikePatterns.BackslashNotLiteral | LikePatterns.LikeContains |
