# wg-reconf in Dafny

`wg-reconf` edits WireGuard configuration files. It rewrites every
`AllowedIPs` line so that one IPv4 network (the exclusion) is carved out of
the networks the line allows. Each allowed IPv4 network that contains the
exclusion is replaced by the CIDR networks that cover it minus the
exclusion. CIDR notation and prefix arithmetic follow section 3.1 of RFC 4632.

This project models the pure core of the script `wg-reconf.py`:

- `flatten`;
- `update_key` with its inner `update_line`;
- `exclude_ip` with its inner `exclude` and `parse_or_none`.

It also models the parts of Python's `ipaddress` module the core relies on:

- the `IPv4Network` text grammar;
- `supernet_of`;
- `address_exclude`;
- the `compressed` printer.

## Modules

| file | module | contents |
|---|---|---|
| `cidr.dfy` | `Cidr` | IPv4 networks as `Net(base, prefix)`; validity, containment, subnets, halves, supernets, siblings |
| `exclusion.dfy` | `Exclusion` | `exclude` and `address_exclude`, with disjointness, coverage, size and order |
| `text.dfy` | `Text` | `str.strip`, `str.split` on one character, `str.join`, substring search |
| `results.dfy` | `Results` | `Option`, `Result`, and `Raised`, the exceptions that escape the core |
| `ipv4_text.dfy` | `Ipv4Text` | the `IPv4Network` constructor on text and the printer of networks |
| `value_list.dfy` | `ValueList` | `flatten`, `parse_or_none` and `exclude_ip` over the list of values |
| `rewriter.dfy` | `Rewriter` | `update_line` and `update_key`, and the whole rewriting of one file's text |

An exception that Python would let escape is a `Failure` carrying a
`Raised` value. The raising cases are:

- a destructuring with too few or too many parts;
- a bad netmask;
- host bits set;
- an IPv6 error;
- an invalid exclusion.

A run is "consumed to the end": the generators of `exclude_ip` are modelled
by the list they yield, and the first exception in their evaluation order
is the one reported.

### Behaviour as the code has it

In these cases the model follows `wg-reconf.py` and the `ipaddress` module:

- **Equal networks.** `supernet_of` is reflexive, and excluding a network
  from itself yields nothing. So an exclusion equal to an allowed network
  removes that network (`Exclusion.ExcludeSelf`); it is not kept.
- **Exactly one `=`.** A line that contains the key must split into exactly
  two parts on `=`. Otherwise the destructuring at `wg-reconf.py:17` raises.
  The split is not "on the first `=`", and value text holding a further `=`
  is not preserved. A comment line such as `# AllowedIPs are rewritten`
  contains the key and has no `=`, so it raises as well.
- **Parse errors.** Only `AddressValueError` is swallowed. A token with a
  bad netmask or with host bits set raises, and the whole run fails.
- **Exclusion parsing.** The exclusion text is parsed inside `exclude_ip`.
  It is parsed only when a field line is reached, and once per field line.
  A text with no field line, and no line holding the key without exactly
  one `=`, is returned unchanged even when the exclusion is malformed
  (`Rewriter.UpdateKeyUnchanged`).
- **Strict IPv4 grammar.** `IPv4Network` accepts all of the following, and
  the model accepts the same:
  - a bare address, meaning `/32`;
  - a prefix length written with leading zeros (up to the interpreter's
    digit limit, which the model does not have);
  - a dotted netmask or hostmask;
  - no octet with a leading zero.
- **Whitespace.** `str.strip` removes every character for which Python's
  `str.isspace` holds, not only ASCII blanks.

## Model

| member | source | states |
|---|---|---|
| Exclusion.Exclude | wg-reconf.py:30-33 | every network `exclude` returns is a valid subnet of the given network, and is either disjoint from the exclusion or strictly inside it |
| Exclusion.ExcludePassThrough | wg-reconf.py:31-33 | a network disjoint from the exclusion, or strictly inside it, comes back alone and unchanged |
| Exclusion.ExcludeSelf | wg-reconf.py:31-32 | excluding a network from itself leaves nothing |
| Exclusion.ExcludeStrictSubnet | wg-reconf.py:32 | for an exclusion strictly inside `n`: there are exactly `x.prefix - n.prefix` results, with prefixes `n.prefix + 1` upward; they are valid, inside `n`, disjoint from `x` and pairwise disjoint; they cover exactly the addresses of `n` not in `x`; their sizes add up to `Size(n) - Size(x)` |
| Exclusion.ExcludeOrder | wg-reconf.py:32 | `address_exclude` emits the disjoint sibling at each level of the descent toward the exclusion, widest first |
| Exclusion.ExcludeOrderExample | wg-reconf.py:32 | 10.0.0.0/24 less 10.0.0.64/26 is 10.0.0.128/25 followed by 10.0.0.0/26 |
| Exclusion.ExcludeCovers | wg-reconf.py:30-33 | for any two networks, the result covers an address exactly when the network does and the address is not in an exclusion that lies inside the network |
| Exclusion.ExcludeFixpoint | wg-reconf.py:30-33 | excluding the same network again from any result changes nothing |
| Exclusion.SplitOff | wg-reconf.py:32 | the halving loop of `address_exclude` stops after exactly `x.prefix - n.prefix` levels, one network emitted per level |
| Exclusion.SplitOffCovers | wg-reconf.py:32 | the recursive halving covers exactly the network minus the exclusion |
| Exclusion.SplitOffPairwiseDisjoint | wg-reconf.py:32 | no two networks of the halving overlap |
| Exclusion.SplitOffTotalSize | wg-reconf.py:32 | the sizes of the halving's networks plus the exclusion's size give the network's size |
| Exclusion.SplitOffSiblings | wg-reconf.py:32 | the k-th network of the halving is the sibling of the exclusion's supernet of prefix `n.prefix + k + 1` |
| Exclusion.SplitOffStep | wg-reconf.py:32 | one halving step: the half holding the exclusion is descended into, and the other half is emitted first |
| Cidr.SubnetOfMeansContainment | wg-reconf.py:31 | `supernet_of`, compared on first and last address, means every address of the subnet is in the supernet |
| Cidr.DisjointMeansNoSharedAddress | wg-reconf.py:32 | the range test for disjointness means no shared address |
| Cidr.Laminar | wg-reconf.py:31 | two valid networks are nested one way or the other, or disjoint |
| Cidr.InsideAHalf | wg-reconf.py:32 | a network strictly inside another lies in one of its two halves |
| Ipv4Text.ParseAddress | wg-reconf.py:43 | an address accepted by the dotted-quad grammar is below 2^32 and prints back as the same text |
| Ipv4Text.AddressRoundTrip | wg-reconf.py:43 | printing an address and parsing it back gives the address |
| Ipv4Text.Parse4 | wg-reconf.py:43 | every network `IPv4Network` accepts is valid |
| Ipv4Text.ParsePrefixLength | wg-reconf.py:43 | an accepted mask is a prefix length in decimal digits, or the dotted netmask or hostmask of the prefix length returned |
| Ipv4Text.Show4RoundTrip | wg-reconf.py:49 | parsing the compressed text of a valid network gives the network back |
| Ipv4Text.HostBitsRaise | wg-reconf.py:38-39 | an address with a host bit set below its decimal prefix length raises the host-bits `ValueError`, which `parse_or_none` does not swallow |
| Ipv4Text.PrefixOver32 | wg-reconf.py:38-39 | an address with a decimal prefix length above 32 raises `NetmaskValueError`, which `parse_or_none` does not swallow |
| Ipv4Text.BareAddressIsHost | wg-reconf.py:43 | an address without a mask is the /32 network of that address |
| Ipv4Text.ColonIsNotV4 | wg-reconf.py:43-44 | text whose address part holds a colon is not an IPv4 network, so it is dropped silently by the IPv4 pass |
| ValueList.Flatten | wg-reconf.py:10-11 | a value occurs in the flattened list exactly when it occurs in one of the lists |
| ValueList.FlattenSingle | wg-reconf.py:10-11 | flattening a single list gives that list; with `FlattenAppend` this determines `flatten` on every input |
| ValueList.FlattenAppend | wg-reconf.py:10-11 | flattening distributes over concatenation, so each list stays contiguous and in order |
| ValueList.ParseOrNone4 | wg-reconf.py:35-41 | `parse_or_none(IPv4Network)` gives a valid network exactly when the constructor does, `None` exactly on an `AddressValueError`, and raises on a bad netmask or set host bits |
| ValueList.ParseOrNone6 | wg-reconf.py:35-41 | `parse_or_none(IPv6Network)` gives `None` exactly on an `AddressValueError`, and raises on any other IPv6 error |
| ValueList.Present | wg-reconf.py:43-44 | the filtered generator succeeds exactly when every token parses without raising; otherwise it reports the first token's exception; on success it yields exactly the parsed networks |
| ValueList.PresentAppend | wg-reconf.py:43-44 | the filtered parse of concatenated tokens is the parse of the first part, then of the second, with the first exception winning |
| ValueList.Ranges4Single | wg-reconf.py:43-49 | one IPv4 token yields the compressed exclusion of its network, a token that is not IPv4 yields nothing, and a bad netmask or set host bits raise |
| ValueList.Ranges6Single | wg-reconf.py:44-49 | one IPv6 token yields its compressed text, a non-IPv6 token yields nothing, and any other IPv6 error raises |
| ValueList.Ranges4Append | wg-reconf.py:43-49 | the IPv4 pass over concatenated tokens is the pass over each part in turn, expansions kept contiguous and in token order |
| ValueList.Ranges6Append | wg-reconf.py:44-49 | the IPv6 pass over concatenated tokens is the pass over each part in turn |
| ValueList.ExcludeFromAppend | wg-reconf.py:48-49 | all IPv4-derived networks, for both parts in order, come before all IPv6 networks, for both parts in order |
| ValueList.DropNeither | wg-reconf.py:43-44 | a token that is neither IPv4 nor IPv6 can be removed without changing the result |
| ValueList.Compressed | wg-reconf.py:49 | each network is printed by `compressed`, one text per network, in order |
| ValueList.ExcludeIp | wg-reconf.py:46 | an exclusion that is not a valid IPv4 network fails the call with that exclusion text |
| ValueList.ExcludeIpEmptyToken | wg-reconf.py:43-46 | the single empty token of an empty field maps to an empty list |
| ValueList.RemaindersFixed | wg-reconf.py:31-33 | every network left after exclusion is disjoint from the exclusion or strictly inside it |
| ValueList.RerunUnchanged | wg-reconf.py:43-49 | networks untouched by the exclusion, printed compressed and followed by canonical IPv6 texts, come back unchanged |
| ValueList.ExcludeFromIdempotent | wg-reconf.py:43-49 | for clean tokens, mapping the output list again with the same exclusion returns it unchanged |
| ValueList.ExcludeIpIdempotent | wg-reconf.py:29-51 | for clean tokens, `exclude_ip` applied to its own output returns it unchanged |
| ValueList.ExcludeIpPlain | wg-reconf.py:29-51 | for clean tokens, every value `exclude_ip` returns is non-empty, trimmed, and free of `,`, `=` and newlines |
| Rewriter.Tokens | wg-reconf.py:21-22 | the values part splits into one token more than it has commas, and each token is trimmed and comma-free |
| Rewriter.TokensClean | wg-reconf.py:21-22 | the tokens of a values text without `=` or newlines hold no comma, `=` or newline |
| Rewriter.LineTokensClean | wg-reconf.py:17-22 | every token list `update_line` can pass to the mapper from a line of the text is clean |
| Rewriter.UpdateLine | wg-reconf.py:14-23 | a line without the key is returned as it is; a line with the key and no `=`, or more than one `=`, raises; a line can change only if it is a field line of the key |
| Rewriter.GuardHarmless | wg-reconf.py:15-18 | every field line contains the key, so the substring test never skips one |
| Rewriter.LineUnchanged | wg-reconf.py:14-19 | a line without the key, or with one `=` and another key on its left, is returned byte for byte |
| Rewriter.UpdateLineFails | wg-reconf.py:15-22 | a line fails exactly when it holds the key without exactly one `=`, or is a field line whose mapper raises |
| Rewriter.FieldLineRewritten | wg-reconf.py:17-23 | a field line `k=v` becomes the stripped key, ` = `, and the mapped values of the trimmed comma-separated tokens of `v` joined by `, `; a mapper exception escapes |
| Rewriter.TokensOfPrinted | wg-reconf.py:21-23 | the values written by a field line read back as the same tokens, or as the one empty token for an empty list |
| Rewriter.FieldTextRewritten | wg-reconf.py:14-23 | a line written by `update_line` is rewritten to itself when the mapper is settled on its values |
| Rewriter.UpdateLineIdempotent | wg-reconf.py:14-23 | `update_line` on a line without a newline, with a stable mapper, applied to its own output, returns it unchanged |
| Rewriter.UpdateLines | wg-reconf.py:25-27 | on success every line's result is that line's update; on failure the exception is the first failing line's |
| Rewriter.UpdateLinesPointwise | wg-reconf.py:25-27 | the line-by-line update succeeds with the outputs of every line when each line does |
| Rewriter.UpdateKeyUnchanged | wg-reconf.py:13-27 | a text with no field line of the key, and no line that would raise, is returned unchanged |
| Rewriter.UpdateKeyLines | wg-reconf.py:25-27 | the output has as many lines as the input, and each output line is the update of the input line |
| Rewriter.UpdateKeyIdempotent | wg-reconf.py:13-27 | `update_key` with a stable mapper, applied to its own output, returns it unchanged |
| Rewriter.ExcludeIpStable | wg-reconf.py:29-51 | `exclude_ip` against any exclusion is a stable mapper: on clean tokens its output is plain and maps to itself |
| Rewriter.RewriteIdempotent | wg-reconf.py:60 | rewriting the `AllowedIPs` lines of a rewritten text again leaves it unchanged, so a second run does not write the file |
| Rewriter.RewriteKeepsLines | wg-reconf.py:60 | rewriting keeps the number of lines of the text |
| Text.Split | wg-reconf.py:17 | `str.split` on one character gives one part more than there are separators; no part holds the separator; joining with it gives the text back |
| Text.InfixIsSubstring | wg-reconf.py:15 | a block of the line at any position makes `key in line` hold |
| Text.SubstringIsInfix | wg-reconf.py:15 | when `key in line` holds, the key occurs in the line as a block at some position |
| Text.SplitPartAvoids | wg-reconf.py:17 | a character absent from a text is absent from every part of its split |
| Text.JoinTwo | wg-reconf.py:21 | `str.join` of two parts puts the separator once between them |
| Text.SplitJoin | wg-reconf.py:25-26 | splitting a join of separator-free parts gives the parts back |
| Text.Trim | wg-reconf.py:18 | `str.strip` leaves no whitespace at either end |
| Text.TrimPadded | wg-reconf.py:22 | stripping a trimmed text padded with whitespace gives the text back |
| Text.TrimDecomposes | wg-reconf.py:22 | every text is whitespace, its stripped text, then whitespace |
| Text.TrimIdempotent | wg-reconf.py:22 | stripping twice is stripping once |

## Left out

- `main` (`wg-reconf.py:54-65`) is left out: globbing `*.conf`, reading and writing files, and the backup rename are file I/O. `Rewriter.Rewrite` models the call at line 60 on one file's text.
- The `argparse` setup and the top-level call (`wg-reconf.py:68-79`) are left out as command-line plumbing. The exclusion argument is a parameter.
- The IPv6 grammar and the IPv6 `compressed` printer are left out. `IPv6Network` is a parameter `parse6` of the model. `ValueList.WellBehaved6` states what is assumed of it:
  - text without a colon is not IPv6;
  - every network it accepts from a clean text prints as a canonical text;
  - parsing that text gives the same text;
  - that text holds a colon in its address part and no `,`, `=` or newline, and carries no surrounding white space.

  A clean text holds no `,`, `=` or newline. Nothing is assumed of other texts: `IPv6Network` prints a scope id after `%` back as written, so `fe80::%a,b/128` prints with its comma. No token read from a configuration line can hold these characters (`Rewriter.LineTokensClean`).
- Python's exception classes and messages are left out. Only which exception escapes, and for which token or line, is modelled.
- The laziness of the generators in `exclude_ip` is left out. The model computes each pass as a list and keeps the order in which exceptions would surface: the exclusion first, then the IPv4 pass over all tokens, then the IPv6 pass.
- Older `ipaddress` releases that accepted octets with leading zeros are left out. The model follows the current grammar, which rejects them.
- The maximality of the remainders is left out: no two of them could be merged into one network. It is not stated as a lemma. The order and prefixes in `Exclusion.ExcludeOrder` and `Exclusion.ExcludeStrictSubnet` determine the remainders fully.
- Ipv4Text.ParsePrefixLength: reads a decimal prefix of any length. From Python 3.11, `int` refuses a digit string longer than the interpreter's digit limit (4300 by default). On such a prefix, `IPv4Network` raises `NetmaskValueError`, even for a prefix like `0…024` with zeros in front, and the model accepts the prefix instead. The limit is an interpreter setting, not part of the script.
- ValueList.Ranges4: carries no contract of its own. Its meaning is stated by `ValueList.Ranges4Single` and `ValueList.Ranges4Append`.
- ValueList.Ranges6: carries no contract of its own. Its meaning is stated by `ValueList.Ranges6Single` and `ValueList.Ranges6Append`.
- ValueList.ExcludeFrom: carries no contract of its own. Its meaning is stated by `ValueList.ExcludeFromAppend`, `ValueList.DropNeither` and `ValueList.ExcludeFromIdempotent`.
- ValueList.ExcludeFromIdempotent: stated for clean tokens only. A scoped IPv6 token holding `,`, `=` or a newline would print those back; no line of a configuration yields such a token.
- ValueList.ExcludeIpIdempotent: stated for clean tokens only, for the same reason.
- ValueList.ExcludeIpPlain: stated for clean tokens only, for the same reason.
- Rewriter.UpdateLineIdempotent: stated for lines without a newline, which every line of a split text is.
- Text.HasSubstring: carries no contract of its own. It stands for `key in line`, and `Text.InfixIsSubstring` with `Text.SubstringIsInfix` state its meaning in both directions.
- Text.Join: carries no contract of its own. Its meaning is stated by the join round trip of `Text.Split`, by `Text.SplitJoin` and by `Text.JoinTwo`.
- Rewriter.UpdateKey: carries no contract of its own. Its meaning is stated by `Rewriter.UpdateKeyLines`, `Rewriter.UpdateKeyUnchanged` and `Rewriter.UpdateKeyIdempotent`.
- Rewriter.UpdateKeyIdempotent: assumes a stable mapper, one that is settled on what it returns for clean tokens. The mapper of the script is shown stable in `Rewriter.ExcludeIpStable`.
