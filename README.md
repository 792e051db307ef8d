# RU domain whitelist: rule compiler and liveness checker in Dafny

This project models the build scripts of the RU-domain-list-for-whitelist
repository. It then proves properties of that model.

Those scripts turn plain-text domain lists and IP lists into the two routing
databases that v2ray-style clients read: `geosite.dat` holds the domain rules
and `geoip.dat` the CIDR rules. A third script, the liveness checker, reads
the same domain files and comments out the first line that names a dead host.

The model follows the scripts module by module:

| module | file | what it covers |
|---|---|---|
| `Wrappers` | wrappers.dfy | `Option`, and mapping a list and keeping its present results |
| `Text` | text.dfy | the Python string operations the scripts use (`strip`, `split`, `split()[0]`, `lower`), plus decimal and hex digits |
| `FileTree` | file_tree.dfy | paths as component lists, `path.parent`, `parent / name` |
| `RuleFile` | rule_file.dfy | line classification and `load_domains_from_file` of scripts/build_dat.py |
| `Includes` | includes.dfy | `load_domains_from_directory` and its recursive `process_file`, as the class `IncludeResolver` with the shared `processed` set |
| `IpText` | ip_text.dfy | the IPv4/IPv6 address and netmask text forms that `ipaddress` reads and writes |
| `Cidr` | cidr.dfy | `ip_network(s, strict=False)`, the IP-list line reader and `load_ips_from_directory` |
| `Catalog` | catalog.dfy | `create_geosite_entry`, `create_geoip_entry` and the list assembly of `build_geosite_dat` / `build_geoip_dat` |
| `Selection` | selection.dfy | `parse_geosite_dat`, `parse_geoip_dat` and the dict-to-list loops of `main` in scripts/parse_dat.py |
| `Liveness` | liveness.dfy | `load_domains_from_file`, `load_domains` and `comment_out_domain_in_file` of check-domains.py |

## How files and failures are represented

- The disk is a value, mapping each path to a file or a directory.
- For the compiler, a file is the list of lines its UTF-8 reader yields. Python's text reader decodes a file in blocks of about 8 KB, and a block that holds an invalid byte yields none of its lines: the error ends the reading of that file there. A file is therefore modelled as the lines decoded before the failing block. Those lines have already been handled when the error comes, so that list is still a valid input to the model. A file smaller than one block with a single bad byte is the empty list and gives no rules.
- For the checker, a file is what each of its two codecs (UTF-8, then cp1251) decodes, or `None` when decoding fails.
- The order in which `rglob` and `iterdir` list a directory is a parameter.
- `str.encode('idna')` is a parameter `idna: string -> Option<string>`.
- `sys.exit(n)` in `load_domains` becomes the outcome value `Exit(n)`.
- What the scripts print is left out. The `missing` set of `parse_dat` is returned instead of printed.

## Behaviour worth knowing

- **Prefixed rules keep comments.** Only bare domain lines are cut at `#`. A directive such as `full:a.ru#note` yields the value `a.ru#note`, because `.strip().split()[0]` keeps the `#`.
- **An empty directive ends the file.** A directive with nothing after it (`full:` with an empty or blank rest) raises `IndexError`, which the handler around the whole loop catches. The file's rules up to that line are kept and the rest of the file is dropped (`RuleFile.FailIffEmptyDirective`, `RuleFile.ScanUpToFirstFailure`).
- **A decoding error keeps the rules of earlier blocks.** The compiler has no cp1251 retry. A UTF-8 error keeps the rules of the lines decoded before the failing block of about 8 KB and drops the rest of the file, so a small file with one bad byte gives no rules at all. Only the liveness checker retries with cp1251, and it starts from scratch.
- **Selection keeps the upstream record as it is.** The requested spelling of a category only becomes the dict key. The record itself keeps its upstream code and casing, and `main` writes only the records (`Selection.ItemsRequested`).
- **Paths are compared as written.** The processed set compares paths as they are built (`filepath.parent / include_name`); nothing resolves them to a canonical form. `pathlib` keeps exactly two leading slashes as a root of its own, so `include://d/b` and `include:/d/b` name two different paths and the file is read twice (`FileTree.DoubleSlashRoot`).
- **The single-address fallback is dead.** In `load_ips_from_directory`, `ip_network` already accepts every text that `ip_address` accepts (prefix = full width), and `ip_address` rejects every text that holds a `/`. So the fallback that appends `/32` or `/128` never runs. It is modelled as written and proved unreachable (`Cidr.AddressIsNetwork`, `Cidr.LineEntry`).

## Model

| member | source | states |
|---|---|---|
| Text.LStrip | scripts/build_dat.py:29 | the result is the text without its leading whitespace: it does not start with whitespace |
| Text.LStripUnique | scripts/build_dat.py:29 | whitespace followed by a text that does not start with whitespace strips to exactly that text |
| Text.RStripUnique | scripts/build_dat.py:29 | a text that does not end in whitespace, followed by whitespace, right-strips to exactly that text |
| Text.Strip | scripts/build_dat.py:29 | `strip()` leaves no whitespace at either end |
| Text.StripTwice | scripts/build_dat.py:29 | stripping a stripped line changes nothing |
| Text.StripAppend | scripts/build_dat.py:42 | stripping a line, then appending a whitespace-led tail, keeps the stripped line as a prefix |
| Text.Split | scripts/build_dat.py:58 | `str.split(sep)` always yields at least one piece |
| Text.JoinSplit | scripts/build_dat.py:58 | joining the pieces of `split(sep)` with `sep` gives the text back |
| Text.SplitJoin | check-domains.py:41 | splitting a join of `c`-free pieces on `c` gives the pieces back |
| Text.SplitCharFree | scripts/build_dat.py:58 | no piece of `split(c)` holds `c` |
| Text.SplitFirstIsPrefix | check-domains.py:38 | the first piece of a split is a prefix of the text |
| Text.FirstToken | scripts/build_dat.py:42 | `split()[0]` fails exactly on all-whitespace text and otherwise is a non-empty whitespace-free token |
| Text.TakeTokenOf | scripts/build_dat.py:58 | a whitespace-free token followed by whitespace is the first token |
| Text.Lower | check-domains.py:41 | `lower()` keeps the length and lowercases each character |
| Text.LowerNoUpper | check-domains.py:41 | lowercasing a text with no capitals changes nothing |
| Text.DecimalRoundTrip | scripts/build_dat.py:157 | the decimal text of a number reads back as that number |
| Text.HexRoundTrip | scripts/build_dat.py:157 | the hex text of a number reads back as that number |
| FileTree.Parent | scripts/build_dat.py:98 | `path.parent` is the path without its last component; a root (`/` or `//`) and the empty path are their own parent |
| FileTree.Components | scripts/build_dat.py:98 | `Path` joining drops empty and `.` components |
| FileTree.JoinPath | scripts/build_dat.py:98 | `parent / name`: an absolute name replaces the directory by its own root, a relative one extends the directory; only non-empty components other than `.` are added |
| FileTree.JoinPlainName | scripts/build_dat.py:98 | `parent / name` for a plain name is a child of `parent`, whose parent is `parent` and whose name is `name` |
| FileTree.DoubleSlashRoot | scripts/build_dat.py:98 | a name with exactly two leading slashes keeps the root `//`, so `//x` and `/x` are different paths, while `///x` is `/x` |
| RuleFile.DirectiveOf | scripts/build_dat.py:40-55 | the directive a line begins with, tried in source order |
| RuleFile.DirectiveOfPrefix | scripts/build_dat.py:37-55 | a line that starts with one directive is classified by that directive and is neither a comment nor an include |
| RuleFile.Tagged | scripts/build_dat.py:42-55 | a directive's value is the first token of its stripped rest; it raises exactly when that rest is blank |
| RuleFile.Bare | scripts/build_dat.py:56-65 | a bare line yields a root-domain rule whose value is non-empty, holds a dot and no `#`, or it yields nothing |
| RuleFile.BareOf | scripts/build_dat.py:58-59 | a token whose part before the first `#` is `d` yields the `domain` rule `d` exactly when `d` holds a dot, and nothing otherwise |
| RuleFile.ClassifyBareToken | scripts/build_dat.py:115-116 | on a stripped bare line followed by whitespace and more, the same: `d` as a `domain` rule iff it holds a dot |
| RuleFile.BareLine | scripts/build_dat.py:58-59 | a raw line of whitespace, a bare token `d` (optionally `#` and more glued to it) and a whitespace-led tail yields `domain:d` when `d` holds a dot and nothing when it does not |
| RuleFile.IncludeLine | scripts/build_dat.py:97 | a line of whitespace, `include:`, whitespace, a name and whitespace names exactly that name (`line[8:].strip()`) |
| RuleFile.StrippedInclude | scripts/build_dat.py:90 | stripping such a line leaves `include:`, the inner whitespace and the name |
| RuleFile.ClassifyInclude | scripts/build_dat.py:95-97 | a stripped `include:` line names the stripped text after the directive |
| RuleFile.ParseLine | scripts/build_dat.py:29-65 | blank and comment lines yield nothing; every rule value is a non-empty whitespace-free token; an include comes from a line starting `include:` |
| RuleFile.Classify | scripts/build_dat.py:32-65 | the same classification on a stripped line |
| RuleFile.FailIffEmptyDirective | scripts/build_dat.py:40-55 | a line raises exactly when, stripped, it is a bare directive with no value |
| RuleFile.ClassifyFail | scripts/build_dat.py:40-55 | a stripped line raises exactly when it is an empty directive |
| RuleFile.OnlyThisDirective | scripts/build_dat.py:40-55 | a line starting with one directive is an empty directive only when it equals that directive |
| RuleFile.DirectiveTail | scripts/build_dat.py:40-55 | the rest after a directive is blank exactly when the line is the bare directive |
| RuleFile.PrefixedLine | scripts/build_dat.py:40-55 | a line of whitespace, a directive, a token and a whitespace-led tail yields exactly that directive's rule with that token (a `#` in the token is kept) |
| RuleFile.ClassifyPrefixed | scripts/build_dat.py:40-55 | a stripped directive line with a token yields that rule |
| RuleFile.TaggedToken | scripts/build_dat.py:42 | the value of a directive is its first token, whatever follows after whitespace |
| RuleFile.StrippedPrefixed | scripts/build_dat.py:29 | stripping such a line leaves the directive and token at its start |
| RuleFile.BareSuffix | scripts/build_dat.py:56-65 | a bare line's rule depends only on its first token: appending a whitespace-led tail (such as `@ads`) changes nothing |
| RuleFile.BareToken | scripts/build_dat.py:58 | `line.split()[0]` ignores what follows the first whitespace |
| RuleFile.BareAcrossSpace | scripts/build_dat.py:56 | appending a whitespace-led tail to a bare line leaves it bare |
| RuleFile.StrippedBare | scripts/build_dat.py:29 | stripping a bare line plus a whitespace-led tail keeps the stripped line as a prefix |
| RuleFile.ClassifyBare | scripts/build_dat.py:56-65 | a bare line is classified by the bare-domain branch |
| RuleFile.NoPrefixAcrossSpace | scripts/build_dat.py:37-55 | appending a whitespace-led tail cannot make a line start with a directive |
| RuleFile.FirstFailure | scripts/build_dat.py:26-69 | the index of the first line that raises, or the number of lines |
| RuleFile.BeforeFirstFailure | scripts/build_dat.py:26-69 | no line before the first failure raises |
| RuleFile.ScanUpToFirstFailure | scripts/build_dat.py:26-69 | the rules of a file are the rules of its lines before the first raising line, in order; the reading halts exactly when such a line exists |
| RuleFile.HaltedScanStays | scripts/build_dat.py:66-67 | once a line raises, later lines change nothing |
| RuleFile.EmittedRulesSnoc | scripts/build_dat.py:43-65 | each line appends its rule, if any, at the end |
| RuleFile.FirstFailureSnoc | scripts/build_dat.py:26-69 | how the first failure moves when a line is added |
| RuleFile.LoadRuleFile | scripts/build_dat.py:19-69 | `load_domains_from_file` returns the rules of the file's lines up to the first raising line; a missing path or a directory gives none |
| Includes.Resolve | scripts/build_dat.py:77-121 | `process_file` only grows the processed set, always adds its own path, and gives nothing for a path already processed |
| Includes.ResolveLines | scripts/build_dat.py:87-117 | the lines of one file only grow the processed set |
| Includes.ResolveLinesNext | scripts/build_dat.py:95-117 | one line: an include splices the child's rules in place and continues with the child's processed set; a rule is appended; a raising line halts |
| Includes.HaltedWalkStays | scripts/build_dat.py:118-119 | once a line raises, the rest of the file adds nothing |
| Includes.ResolveLinesHalted | scripts/build_dat.py:87-119 | expanding includes halts exactly where reading the file alone halts |
| Includes.IncludeResolver.constructor | scripts/build_dat.py:75 | the processed set of a fresh call is empty |
| Includes.IncludeResolver.ProcessFile | scripts/build_dat.py:77-121 | the rules and the new processed set are those of `Resolve` from the old processed set |
| Includes.ResolveEach | scripts/build_dat.py:129-131 | the directory loop only grows the processed set and never halts |
| Includes.LoadDomainsFromDirectory | scripts/build_dat.py:72-133 | a file root is expanded alone; a directory root is expanded file by file in walk order with one shared processed set, skipping dot-files; anything else gives nothing |
| Includes.ResolveReadsOnce | scripts/build_dat.py:77-121 | `process_file` reads exactly the files it newly processes, each once and none processed before, and its result is, as a multiset, exactly the own rules of those files |
| Includes.ResolveLinesReadsOnce | scripts/build_dat.py:87-117 | the same for the lines of a file: every file its includes newly process is read, once, and the result is its own rules plus the own rules of those files |
| Includes.LineReadsOnce | scripts/build_dat.py:100-117 | a non-include line keeps that property |
| Includes.IncludeReadsOnce | scripts/build_dat.py:95-99 | an include line keeps that property |
| Includes.SpliceReadsOnce | scripts/build_dat.py:99 | splicing a child's result keeps the files read distinct |
| Includes.ResolveEachReadsOnce | scripts/build_dat.py:129-131 | the directory loop reads exactly the files it newly processes, each once, and loses or repeats no rule |
| Includes.DirectoryReadsOnce | scripts/build_dat.py:72-133 | `load_domains_from_directory` reads every file at most once, reads a file root and every listed file of a directory root, and its result is exactly the own rules of the files read, however includes repeat or cycle |
| Includes.ListedVisited | scripts/build_dat.py:129-131 | every file the walk lists that is not a dot-file is processed by the end of the loop |
| Includes.VisitedStep | scripts/build_dat.py:95-99 | one more line keeps every processed path processed, and a reached include adds its target |
| Includes.IncludesVisited | scripts/build_dat.py:87-119 | the target of every include on a line reached before the first raising line is processed, so a target that is a file is read |
| Includes.ProcessedIncludes | scripts/build_dat.py:78-79 | lines whose includes all name processed paths read no file and give the rules the file gives alone |
| Includes.ReadOther | scripts/build_dat.py:77-121 | a file whose includes name only processed paths or itself is read alone and gives its own rules |
| Includes.CycleIncludeStep | scripts/build_dat.py:95-99 | in a two-file cycle, the first include reached reads the other file once and later ones add nothing |
| Includes.CycleQuietStep | scripts/build_dat.py:100-119 | in a two-file cycle, a line that is not a reached include reads no file |
| Includes.CycleLines | scripts/build_dat.py:87-119 | in a two-file cycle, the including file's lines read the other file once exactly when an include is reached, and give both files' own rules |
| Includes.IncludeCycle | scripts/build_dat.py:77-121 | two files that include each other: expanding the first reads it and then the other, once each, and gives the own rules of both, each once |
| Includes.IncludeFreeLines | scripts/build_dat.py:87-117 | a file with no includes is expanded exactly as it is read alone |
| Includes.RevisitGivesNothing | scripts/build_dat.py:78-79 | a path already processed contributes nothing and reads nothing |
| Includes.MissingInclude | scripts/build_dat.py:83-85 | a missing include target is marked processed, adds nothing, and the including file continues |
| IpText.Bytes | scripts/build_dat.py:209 | `packed` is a big-endian byte string of the given length |
| IpText.ValueOfBytes | scripts/build_dat.py:209 | the bytes of an address give the address back |
| IpText.BytesOfValue | scripts/build_dat.py:209 | the value of a byte string gives the bytes back |
| IpText.ParseEach | scripts/build_dat.py:156 | the parts parse exactly when each part does, giving one value per part |
| IpText.ParseEachAll | scripts/build_dat.py:156 | parts that each parse give their values |
| IpText.ParseOctet | scripts/build_dat.py:156 | an IPv4 octet is below 256 |
| IpText.ParseV4 | scripts/build_dat.py:156 | an IPv4 address is below 2^32 |
| IpText.ParseV4Address | scripts/build_dat.py:156 | an IPv4 address is read only from text with no `/`, and is below 2^32 |
| IpText.OctetText | scripts/build_dat.py:157 | an octet's decimal text reads back as that octet |
| IpText.FormatV4 | scripts/build_dat.py:156-157 | the dotted text of an IPv4 address reads back as that address and holds no `:`, `/` or `%` |
| IpText.ParseHextet | scripts/build_dat.py:156 | an IPv6 group is below 2^16 |
| IpText.HextetsBytes | scripts/build_dat.py:209 | 16-bit groups rebuilt from bytes give the bytes back |
| IpText.EmptyInner | scripts/build_dat.py:156 | the positions of the inner empty groups (`::`) |
| IpText.Spliced | scripts/build_dat.py:156 | `::` fills the missing groups with zeros between the groups written before and after it |
| IpText.Compressed | scripts/build_dat.py:156 | an address with `::` is below 2^128 |
| IpText.HextetPieces | scripts/build_dat.py:156 | an IPv6 address is below 2^128 |
| IpText.ParseV6Body | scripts/build_dat.py:156 | the same, including an embedded IPv4 tail |
| IpText.ParseV6Address | scripts/build_dat.py:156 | the same, with a `%` scope id allowed and ignored |
| IpText.HextetText | scripts/build_dat.py:157 | a group's hex text reads back as that group |
| IpText.HextetGroups | scripts/build_dat.py:156-157 | eight groups written in hex read back as their address |
| IpText.HextetsTextRead | scripts/build_dat.py:156-157 | the colon text of eight groups reads back as their address |
| IpText.V6RoundTrip | scripts/build_dat.py:156-157 | the text of an IPv6 address reads back as that address |
| IpText.V6TextFree | scripts/build_dat.py:156-157 | IPv6 text holds no `.`, `/` or `%` |
| IpText.MaskValue | scripts/build_dat.py:156 | the netmask of a prefix fits the width |
| IpText.MaskIncreasing | scripts/build_dat.py:156 | longer prefixes have larger netmasks, so a netmask names one prefix |
| IpText.MaskPrefix | scripts/build_dat.py:156 | a found prefix has exactly the given netmask |
| IpText.MaskPrefixFinds | scripts/build_dat.py:156 | the search finds `p` exactly when `p`'s netmask is the given one |
| IpText.PrefixDigits | scripts/build_dat.py:156 | a decimal prefix is at most the width |
| IpText.PrefixText | scripts/build_dat.py:157 | the decimal text of a prefix reads back as that prefix |
| IpText.ParseV4Mask | scripts/build_dat.py:156 | an IPv4 prefix, netmask or hostmask gives a prefix of at most 32 |
| IpText.V4MaskPrefix | scripts/build_dat.py:156 | a netmask, or failing that a hostmask, gives a prefix of at most 32 |
| IpText.V4MaskText | scripts/build_dat.py:156 | a dotted netmask reads as its prefix |
| IpText.V4HostmaskText | scripts/build_dat.py:156 | a dotted hostmask reads as its prefix |
| IpText.HostmaskRead | scripts/build_dat.py:156 | a dotted text that is no netmask but a hostmask reads as the hostmask's prefix |
| IpText.HostmaskNotNetmask | scripts/build_dat.py:156 | for prefixes strictly between 0 and the width, a hostmask is never also a netmask |
| IpText.NotDigits | scripts/build_dat.py:156 | dotted text is never a plain decimal prefix |
| Cidr.ClearLowFacts | scripts/build_dat.py:156 | clearing the host bits lowers an address by less than the network size, to a base that has them clear |
| Cidr.NetworkOf | scripts/build_dat.py:156 | `strict=False` zeroes the host bits: the network is canonical, has the prefix given, and holds the address |
| Cidr.V4Network | scripts/build_dat.py:156 | an IPv4 network read from text is canonical |
| Cidr.V6Network | scripts/build_dat.py:156 | an IPv6 network read from text is canonical |
| Cidr.ParseNetwork | scripts/build_dat.py:156 | `ip_network(s, strict=False)` gives only canonical networks |
| Cidr.ParseAddress | scripts/build_dat.py:161 | `ip_address(s)` gives an address of its family's width |
| Cidr.AddressTextFree | scripts/build_dat.py:157 | address text holds no `/`, and IPv6 text no `.` |
| Cidr.V6TextNotV4 | scripts/build_dat.py:156 | IPv6 text is never read as IPv4 |
| Cidr.AddressRoundTrip | scripts/build_dat.py:161 | the text of an address reads back as that address |
| Cidr.AddressIsNetwork | scripts/build_dat.py:155-167 | every text `ip_address` accepts, `ip_network` accepts as the full-width network of that address, so the fallback branch never runs |
| Cidr.V4Parts | scripts/build_dat.py:156 | an IPv4 address and prefix, written out, read back as their network |
| Cidr.V6Parts | scripts/build_dat.py:156 | an IPv6 address and prefix, written out, are not IPv4 and read back as their network |
| Cidr.NetworkText | scripts/build_dat.py:156 | `address/prefix` reads as the network of that address and prefix, host bits zeroed |
| Cidr.FormatNetwork | scripts/build_dat.py:156-157 | `str(network)` reads back as the same network |
| Cidr.BareAddress | scripts/build_dat.py:155-157 | a bare address reads as its full-width network |
| Cidr.LineEntry | scripts/build_dat.py:149-167 | a blank or comment line adds nothing; a line adds something exactly when `ip_network` accepts its content, and then it adds the text of that network, which reads back as the same network |
| Cidr.EmptyNoNetwork | scripts/build_dat.py:151-152 | the empty text is no network, so the blank-line test and the parse agree |
| Cidr.ValidLinesKept | scripts/build_dat.py:156-157 | a file whose every line holds a network keeps one entry per line, in order, each the text of that line's network |
| Cidr.Entries | scripts/build_dat.py:148-167 | one outcome per line |
| Cidr.EntriesAt | scripts/build_dat.py:148-167 | each line's outcome is that line's entry |
| Cidr.SkippedLine | scripts/build_dat.py:151-152 | a blank or invalid line leaves the other entries in place |
| Cidr.LinesEntriesNext | scripts/build_dat.py:148-167 | each line appends its entry, if any, at the end |
| Cidr.ReadIpFile | scripts/build_dat.py:147-167 | the entries of a file are its lines' entries in order |
| Cidr.EntriesReadBack | scripts/build_dat.py:145-167 | every entry of a file is the text of a network and reads back as it |
| Cidr.WalkEntriesNext | scripts/build_dat.py:145-167 | each walked `.txt` file appends its entries at the end |
| Cidr.WalkEntriesReadBack | scripts/build_dat.py:145-167 | every entry of the walk is the text of a network and reads back as it |
| Cidr.DirectoryIpsReadBack | scripts/build_dat.py:136-171 | every CIDR `load_ips_from_directory` returns is canonical network text |
| Cidr.LoadIpsFromDirectory | scripts/build_dat.py:136-171 | the CIDRs of the `.txt` files of a directory, file by file in walk order; a missing root or a file root gives none |
| Catalog.TypeOf | scripts/build_dat.py:180-194 | full, regexp and keyword map to their record types, and `domain` (the else branch) to a root domain; the type gives the tag back |
| Catalog.GeoSiteRoundTrip | scripts/build_dat.py:174-196 | the record carries the category in both name fields and its domains give back the rules, one per rule, in order |
| Catalog.CreateGeoSiteEntry | scripts/build_dat.py:174-196 | the record built entry by entry is the GeoSite record of the name and rules |
| Catalog.RecordRoundTrip | scripts/build_dat.py:207-210 | the record of a network holds 4 or 16 bytes and gives the network back |
| Catalog.CidrRecords | scripts/build_dat.py:205-212 | at most one record per CIDR text |
| Catalog.CidrRecordsNext | scripts/build_dat.py:205-212 | each text appends its record, if it is a network, at the end |
| Catalog.CreateGeoIpEntry | scripts/build_dat.py:199-214 | the record built entry by entry is the GeoIP record of the name and texts |
| Catalog.AllNetworks | scripts/build_dat.py:205-212 | when every text is a network, there is one record per text, in order |
| Catalog.WhitelistRecords | scripts/build_dat.py:287-292 | the whitelist GeoIP record has one record per CIDR loaded, and each gives back exactly that CIDR text |
| Catalog.SiteCatalog | scripts/build_dat.py:222-256 | the upstream entries come first, unchanged and in order, then `whitelist` exactly when it has rules, then `whitelist-ads` exactly when it has rules |
| Catalog.SameNameKept | scripts/build_dat.py:231-243 | an upstream `whitelist` entry and the local one are both kept |
| Catalog.BuildGeoSiteList | scripts/build_dat.py:217-256 | the GeoSite list is the catalog of the upstream entries and the two directories' rules |
| Catalog.IpCatalog | scripts/build_dat.py:271-294 | the upstream entries come first, unchanged and in order, then the `whitelist` record of the CIDRs exactly when there are any |
| Catalog.IpCatalogLayout | scripts/build_dat.py:271-294 | the upstream entries come first, unchanged and in order, then `whitelist` exactly when there are CIDRs, with one record per CIDR |
| Catalog.BuildGeoIpList | scripts/build_dat.py:266-294 | the GeoIP list is the catalog of the upstream entries and the directory's CIDRs |
| Selection.Put | scripts/parse_dat.py:74 | storing a key keeps the dict well formed |
| Selection.Requested | scripts/parse_dat.py:64 | the lookup gives a requested spelling with that lowercase, and gives nothing only when no requested code has it |
| Selection.RequestedIsLast | scripts/parse_dat.py:64 | the spelling chosen is the last requested code with that lowercase |
| Selection.Selected | scripts/parse_dat.py:66-74 | the extracted dict is well formed |
| Selection.MatchedNext | scripts/parse_dat.py:66-71 | a key is matched by the entries so far exactly when it was matched before or by the new entry |
| Selection.SelectedKeys | scripts/parse_dat.py:66-74 | a key is extracted exactly when it is the chosen spelling of its lowercase and some upstream name has that lowercase |
| Selection.LastMatchExtend | scripts/parse_dat.py:66-74 | a last match stays last when a non-matching entry follows |
| Selection.SelectedValue | scripts/parse_dat.py:66-74 | each key holds the last upstream entry whose name matches it |
| Selection.SelectedSize | scripts/parse_dat.py:64-74 | there are no more extracted categories than distinct lowercases requested |
| Selection.MissingOf | scripts/parse_dat.py:80-84 | a code is missing exactly when it was requested and no upstream entry's name has its lowercase |
| Selection.MissingExact | scripts/parse_dat.py:80-84 | a requested code is reported missing exactly when nothing was extracted for its lowercase |
| Selection.FoundNext | scripts/parse_dat.py:68 | each entry adds its name to the names found |
| Selection.Extract | scripts/parse_dat.py:60-84 | the two loops give the selected dict and the missing set |
| Selection.ParseGeoSiteDat | scripts/parse_dat.py:50-89 | `parse_geosite_dat` over the decoded entries, keyed by `country_code or code` |
| Selection.ParseGeoIpDat | scripts/parse_dat.py:92-131 | `parse_geoip_dat` over the decoded entries, keyed by `country_code or code` |
| Selection.ExtractedList | scripts/parse_dat.py:181-183 | the list written holds the dict's values in insertion order |
| Selection.ItemsRequested | scripts/parse_dat.py:190-192 | every entry written is an unchanged upstream entry whose name matches some requested code |
| Liveness.AfterSchemeFree | check-domains.py:41 | taking the text after `://` adds no character |
| Liveness.HostPartFree | check-domains.py:41 | the host part holds no `/` or `:`, and no `#` unless the text had one |
| Liveness.ContentFree | check-domains.py:38 | the live part of a line holds no `#` |
| Liveness.HostText | check-domains.py:41 | the host text holds no `/` or `:`, and no `#` when the live part has none |
| Liveness.Candidate | check-domains.py:38-42 | a candidate host is non-empty and holds a dot |
| Liveness.CandidateFree | check-domains.py:38-42 | a candidate host holds no `#`, `/` or `:` |
| Liveness.Host | check-domains.py:38-46 | a line with no candidate names no host; otherwise the result is the IDNA encoding of the candidate (`None` when encoding fails); never a host when the text starts with `#` |
| Liveness.CommentedNoHost | check-domains.py:38-39 | a line whose text starts with `#` names no host |
| Liveness.BlankNoHost | check-domains.py:38-39 | a blank line names no host |
| Liveness.PlainLine | check-domains.py:38-42 | a lowercase host name, then whitespace, then an optional comment names exactly that host |
| Liveness.PlainContent | check-domains.py:38 | the live part of such a line is the host name |
| Liveness.PlainHostText | check-domains.py:41 | a plain host name is its own host text |
| Liveness.LiveContent | check-domains.py:38 | a `#`-free whitespace-free text, then whitespace, then an optional comment, has that text as its live part |
| Liveness.SchemeLine | check-domains.py:38-42 | a URL line (a `:`-free scheme, `://`, a plain host, then nothing, a path or a port, then an optional comment) names exactly that host |
| Liveness.SchemeHostText | check-domains.py:41 | the host text of `scheme://host` followed by a path or a port is the host: after the last `://`, before the first `/`, before the first `:` |
| Liveness.SchemePiece | check-domains.py:41 | `split("://")` cuts a `:`-free scheme off as the first piece |
| Liveness.HostPartOf | check-domains.py:41 | `split("/")[0].split(":")[0]` of a host followed by a path or a port is the host |
| Liveness.HostsNext | check-domains.py:35-46 | each line appends its host, if any, at the end |
| Liveness.HostsFromLines | check-domains.py:35-46 | every domain returned is the host of some line |
| Liveness.ScanLines | check-domains.py:35-46 | the domains are the lines' hosts in order, and the original lines are all the lines |
| Liveness.LoadDomainsFromFile | check-domains.py:23-72 | UTF-8 if it decodes, else cp1251 from scratch, else nothing; a missing path or a folder gives nothing |
| Liveness.LastDot | check-domains.py:89 | the position of the last dot of a name |
| Liveness.SuffixEmpty | check-domains.py:89 | a name has no suffix exactly when it ends in a dot or has no dot after its first character |
| Liveness.DomainFilesExact | check-domains.py:87-90 | a path is checked exactly when it is listed, is a file, has no suffix and is not excluded |
| Liveness.AssignFacts | check-domains.py:102-105 | mapping a file's domains keeps earlier mappings and maps each new domain to that file |
| Liveness.FileMapFirst | check-domains.py:99-106 | the map's keys are the unique domains, and each maps to the first file that holds it |
| Liveness.UniqueHas | check-domains.py:106 | every domain of every file is among the unique domains |
| Liveness.FileMapNext | check-domains.py:99-106 | each file extends the map and the unique set |
| Liveness.AddDomains | check-domains.py:102-106 | the inner loop assigns new domains to the file and adds all of them to the unique set |
| Liveness.MapFiles | check-domains.py:99-106 | the outer loop builds the first-file map and the unique set |
| Liveness.LoadDomains | check-domains.py:74-113 | exit 1 without the folder, `NotADirectoryError` when it is a file, exit 0 without checked files or without domains, else the map and the unique domains |
| Liveness.LoadedFirstFile | check-domains.py:99-113 | every domain loaded maps to a listed, checked file: the first in listing order that holds it |
| Liveness.HostNotCommented | check-domains.py:165 | a line that names a host never starts with `#` once stripped, so the second test adds nothing |
| Liveness.CommentLine | check-domains.py:167 | a commented-out line starts with `#`, also once stripped |
| Liveness.CommentLineQuiet | check-domains.py:165-167 | a commented-out line names no host and never matches again |
| Liveness.MatchFlags | check-domains.py:159-165 | one match flag per line |
| Liveness.FirstTrue | check-domains.py:153-169 | the first matching line, or none |
| Liveness.Commented | check-domains.py:151-172 | the rewrite keeps the number of lines |
| Liveness.CommentedOneFewer | check-domains.py:151-172 | only the first matching line changes, and exactly one fewer line names the host live afterwards |
| Liveness.CommentOut | check-domains.py:151-172 | the loop finds a line exactly when one matches, and comments out only the first |
| Liveness.CommentOutDomainInFile | check-domains.py:141-183 | the file is rewritten only when it could be read and a line matched, with that line commented out |

## Left out

- The protobuf wire encoding of `GeoSiteList` and `GeoIPList` (`SerializeToString`, `ParseFromString`): the records are plain values. Decoding the upstream file is left out; its entries are an input.
- Downloading the upstream release (`download_file`, `get_latest_release_assets`), argument parsing, and writing the output files: these are I/O.
- check_ips_cidr.py is not part of this model.
- Probing in check-domains.py (`check_tcp_port`, `check_domain`, ping, the thread pool, `main`): these are network I/O and concurrency.
- The order in which `rglob('*')`, `rglob('*.txt')` and `iterdir()` list a directory: it is a parameter.
- Paths are not resolved: `..` and symbolic links are kept as written.
- Character decoding: each file's decoded lines (UTF-8, and cp1251 for the checker) are given as inputs.
- `str.encode('idna')`: a parameter that may fail.
- Recursion-depth limits of Python are not modelled.
- Text.Lower: lowercases ASCII letters only, where Python's `str.lower` also lowercases other scripts. The selection lemmas take the lowercasing as a parameter and hold for any function.
- IpText.FormatV6: writes all eight groups without `::` compression, where `str()` of an IPv6 network compresses the longest run of zero groups. The value is what the proofs are about: every text written reads back as the same network.
- IpText.ParseV6Address: the scope id after `%` is accepted and ignored, and is not carried into the text written.
- IpText.ParseOctet: follows Python 3.9.5 and later, where an octet with a leading zero is rejected.
- IpText.ParseV4Mask: reads `0.0.0.0` as `/0` and `255.255.255.255` as `/32`, the netmask reading that `ipaddress` tries first.
- Liveness.LoadDomains: returns the unique domains as a set, where the script returns `list(unique_domains)`, whose order is that of a Python set.
- Selection.ParseGeoSiteDat: returns `missing` instead of printing it, and does not model the printed list of available categories.
- Liveness.Candidate: its own contract states only what a returned host looks like; that a dotted host is kept is proved for two line shapes, a bare host (`Liveness.PlainLine`) and a URL with a `:`-free scheme, a path or a port and no second `://` (`Liveness.SchemeLine`), not for every line.
- Liveness.HostText: its value is pinned for lowercase hosts without whitespace (`Liveness.PlainHostText`, `Liveness.SchemeHostText`); for other text only the absence of `/`, `:` and `#` is stated.
- Printing, warnings and the exception messages: left out everywhere.
