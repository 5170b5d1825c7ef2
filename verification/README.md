# ip4r in Dafny

A model of the value algebra at the heart of the ip4r PostgreSQL extension,
with proofs of what its operations compute.

ip4r provides these types:

- `ip4` and `ip6`: single addresses.
- `ip4r` and `ip6r`: address ranges.
- `ipaddress`: an address of either family.
- `iprange`: a range of either family, or the universal range `-`.

The model covers:

- the text codec of addresses and ranges;
- the 32- and 128-bit mask, CIDR, union, intersection, containment and
  arithmetic rules;
- the family-dispatching wrappers;
- the compact on-disk encoding of `iprange`;
- the GiST union, picksplit and consistency rules the indexes rely on.

Representation:

- An IPv4 address is a `nat` below 2^32.
- An IPv6 address is `IP6(hi, lo)`, two 64-bit limbs exactly as C's
  `bits[0]` and `bits[1]`. Every statement about it is made against its
  value `hi * 2^64 + lo`.
- A range is `(lower, upper)`, and `Valid()` means `lower <= upper`.
- An `iprange` is `Universal`, `R4(ip4r)` or `R6(ip6r)`.
- The C functions' `false` returns and `ereport(ERROR, …)` calls become
  `None` or `Failure(error)`.
- A C string is a `seq<char>` whose end stands for the terminating NUL.
- Modules follow the source files:

  | module | source |
  |---|---|
  | `RawIo`, `RawIo6`, `RawIo6Proofs`, `RawIo6Reject` | `src/raw_io.c` |
  | `Ip4rFuncs` | `src/ip4r_funcs.h` |
  | `Ip6rFuncs` | `src/ip6r_funcs.h` |
  | `Ipr` | `src/ipr.h` |
  | `RangeText` | the separator and prefix-length scanning shared by both range parsers |
  | `Ip4r` | `src/ip4r.c` |
  | `Ip6r` | `src/ip6r.c` |
  | `IpAddr` | `src/ipaddr.c` |
  | `IpRange` | `src/iprange.c` |
  | `Picksplit` | the two-pass split the three picksplit functions share |

  `Bits`, `Radix` and `Wrappers` hold the arithmetic, digit and
  `Option`/`Result` vocabulary.

The repository root also holds older copies of `ip6r_funcs.h` and `ip6r.c`.
For every function they share with `src/`, they have the same code. The
model states that logic once, so a row citing `src/ip6r_funcs.h` or
`src/ip6r.c` states the same of the root copy. Rows citing the root copy
directly are those whose path has no `src/` prefix.

## Model

| member | source | states |
|---|---|---|
| RawIo.Dec | src/raw_io.c:147-151 | the `%u` text of a number: decimal digits only, never empty, with a leading `0` only for zero itself |
| RawIo.DecSnoc | src/raw_io.c:147-151 | appending a digit to a nonzero number appends that digit's character to its text |
| RawIo.DecOctetLength | src/raw_io.c:147-151 | an octet prints in at most three digits |
| RawIo.PackBigEndian | src/raw_io.c:35-43 | folding `tmp = (tmp << 8) \| octet` over the octets gives their big-endian base-256 value |
| RawIo.ShiftInOctet | src/raw_io.c:35 | with fewer than four octets read, the shift-and-or is an exact `tmp * 256 + octet` that cannot overflow 32 bits |
| RawIo.Ip4ScanAccepts | src/raw_io.c:19-49 | the scanner accepts only when each step is legal: the end needs a nonempty fourth octet, a dot needs a nonempty octet and at most three dots, and every other character is a digit |
| RawIo.Ip4ScanSound | src/raw_io.c:10-51 | whatever `ip4_raw_input` accepts is exactly the dotted text of four octets below 256, each without a leading zero, and the result packs those octets |
| RawIo.Ip4ScanComplete | src/raw_io.c:10-51 | conversely, the canonical dotted text of any four octets is accepted and yields their packed value |
| RawIo.Ip4InputIff | src/raw_io.c:10-51 | `ip4_raw_input(s)` gives `ip` if and only if `s` is exactly the text `ip4_raw_output` writes for `ip`: the two functions are mutual inverses |
| RawIo.Ip4OutputOf | src/raw_io.c:147-151 | the output of a packed address is its four octets, most significant first, joined by dots |
| RawIo.Ip4DigitsOf | src/raw_io.c:149-150 | the four `(ip >> k) & 0xff` bytes are octets that pack back into `ip` |
| RawIo.Ip4ScanChars | src/raw_io.c:47-48 | from any position the scanner accepts, only digits and dots follow |
| RawIo.Ip4InputChars | src/raw_io.c:47-48 | an accepted dotted quad holds only digits and dots |
| RawIo.Ip4OutputChars | src/raw_io.c:147-151 | the output holds only digits and dots |
| RawIo.Ip4OutputFits | src/ipr.h:71 | the output plus its NUL fits in `IP4_STRING_MAX` |
| RawIo6.ShiftInNibbleOr | src/raw_io.c:75-83 | the 16-bit `word = (word << 4) \| digit` is the `uint16` truncation of `word * 16 + digit` |
| RawIo6.Expand | src/raw_io.c:121-131 | the gap expansion keeps the groups up to the gap, inserts `8 - words` zeros after it, and shifts the rest to the end, leaving eight 16-bit groups |
| RawIo6.MoveUp | src/raw_io.c:127-128 | the first loop moves the groups after the gap to the top positions and leaves the lower ones |
| RawIo6.ZeroFill | src/raw_io.c:129-130 | the second loop zeroes the positions between the gap and the moved groups |
| RawIo6.GapLayout | src/raw_io.c:121-131 | the two loops' result is the prefix, the run of zeros, and the suffix, with every group still 16 bits |
| RawIo6.Pack6 | src/raw_io.c:132-135 | packing eight groups into the two limbs gives their big-endian base-2^16 value |
| RawIo6.LimbOfGroups | src/raw_io.c:132-135 | the shift-and-or of four groups is their exact big-endian value below 2^64 |
| RawIo6.Groups6 | src/raw_io.c:165-172 | the output splits an address into eight 16-bit groups |
| RawIo6.Groups6Pack | src/raw_io.c:165-172 | splitting into groups and packing them again gives the address back |
| RawIo6.FlagsValue | src/raw_io.c:158-190 | the flag word is the sentinel bit 8 plus one bit per nonzero group |
| RawIo6.FfsRun | src/raw_io.c:191-193 | `ffs(flags) - 1` on the shifted flag word is the length of the run of zero groups starting at the current group |
| RawIo6.FlagTest | src/raw_io.c:191-193 | the low flag bit is clear exactly at a zero group, and shifting right moves on to the next group |
| RawIo6.BestScanFinds | src/raw_io.c:189-195 | the scan ends with the best run over all eight groups |
| RawIo6.BestAmongStep | src/raw_io.c:192-193 | one step keeps the leftmost longest run: a new start replaces the best only when its run is strictly longer |
| RawIo6.BestRunIsBest | src/raw_io.c:174-195 | the chosen run is the leftmost longest run of at least two zero groups, or none (`best = -1`) when no such run exists |
| RawIo6.BestAmongUnique | src/raw_io.c:174-195 | that choice is unique: any two runs meeting the rule coincide |
| RawIo6.ZeroRunZeros | src/raw_io.c:191-193 | the measured run consists of zero groups and stops at a nonzero group or at the end |
| RawIo6.HexChar | src/raw_io.c:259 | a nibble prints as a lower-case hex digit that reads back as that nibble |
| RawIo6.HexWordIsHexNum | src/raw_io.c:249-260 | the byte-swap-and-nibble loop writes the shortest hex text of the group: no leading zeros, and `0` for zero |
| RawIo6.HexNumLength | src/raw_io.c:249-260 | a group prints in one to four digits, by magnitude |
| RawIo6.EmitCanonical | src/raw_io.c:228-264 | the main loop, plus its trailing `:`, writes the groups before the best run, then `::`, then the groups after it; with no run it writes all eight groups |
| RawIo6.EmitAll | src/raw_io.c:228-261 | with no run to compress, the loop writes the eight groups joined by single colons |
| RawIo6.EmitLeadingRun | src/raw_io.c:228-264 | a run at the start gives `::` followed by the remaining groups |
| RawIo6.EmitInnerRun | src/raw_io.c:228-264 | a run after the first group gives the leading groups, `::` and the trailing groups |
| RawIo6Proofs.ScanHex | src/raw_io.c:73-84 | scanning the shortest hex text of a group leaves the scanner holding exactly that group |
| RawIo6Proofs.ScanDotted | src/raw_io.c:104-117 | a dotted quad after one to six groups is handed to `ip4_raw_input` and ends the scan as two more groups |
| RawIo6Proofs.FinishGap | src/raw_io.c:118-136 | finishing with a gap yields the address whose groups are the prefix, the zero run and the suffix |
| RawIo6Proofs.InputFromGap | src/raw_io.c:64-67 | a leading `::` starts the scan at the second colon, with the gap recorded before the first group |
| RawIo6Proofs.JoinedRoundTrip | src/raw_io.c:53-145 | eight groups in shortest hex joined by colons read back as their packed address |
| RawIo6Proofs.LeadingGapRoundTrip | src/raw_io.c:53-145 | `::` followed by the groups after a leading zero run reads back as the address |
| RawIo6Proofs.InnerGapRoundTrip | src/raw_io.c:53-145 | groups, `::`, groups around an inner zero run read back as the address |
| RawIo6Proofs.CanonicalRoundTrip | src/raw_io.c:53-145 | every compressed form the main loop can write reads back as the address |
| RawIo6Proofs.TailTexts | src/raw_io.c:212-223 | the three dotted-tail texts are `::a.b.c.d`, `::ffff:a.b.c.d` and `::ffff:0:a.b.c.d` |
| RawIo6Proofs.TailedRoundTrip | src/raw_io.c:212-223 | each dotted-tail text reads back as the address that produced it |
| RawIo6Proofs.BestRunZeros | src/raw_io.c:189-195 | the compressed run is either absent or two to eight zero groups inside the address |
| RawIo6Proofs.Ip6OutputText | src/raw_io.c:153-269 | the output is the dotted-tail text for the special forms (RFC 2765 and section 5 of RFC 5952), and otherwise the text of section 4 of RFC 5952: lower-case hex without leading zeros, with the leftmost longest run of two or more zero groups written as `::` |
| RawIo6Proofs.AllZeroText | src/raw_io.c:224-225 | the all-zero address prints as `::` |
| RawIo6Proofs.Ip6RoundTrip | src/raw_io.c:53-269 | `ip6_raw_input(ip6_raw_output(ip))` is `ip` for every address |
| RawIo6Proofs.CanonicalLength | src/raw_io.c:156 | every compressed hex form has at most 39 characters |
| RawIo6Proofs.Ip6OutputFits | src/ipr.h:68 | every output has at most 39 characters and, with its NUL, fits in `IP6_STRING_MAX` |
| RawIo6Proofs.Ip6OutputChars | src/raw_io.c:249-264 | the output holds only lower-case hex digits, colons and dots |
| RawIo6Reject.Ip4RunRejects | src/raw_io.c:25-29 | four digits in a row make `ip4_raw_input` refuse: a leading zero or an octet above 255 |
| RawIo6Reject.Ip4InputFlawless | src/raw_io.c:19-49 | an accepted dotted quad has no character other than digits and dots, and no four digits in a row |
| RawIo6Reject.Ip6FlawIp4 | src/raw_io.c:104-111 | any flaw that makes the colon-hex scan fail also makes the embedded dotted quad fail |
| RawIo6Reject.HexRunRejects | src/raw_io.c:142-143 | five hex digits in a row are refused |
| RawIo6Reject.Ip6InputFlawless | src/raw_io.c:53-145 | a stray character or a group of five or more hex digits anywhere makes `ip6_raw_input` refuse |
| RawIo6Reject.Ip6InputAlphabet | src/raw_io.c:138-139 | an accepted address holds only hex digits, colons and dots |
| RawIo6Reject.Ip6InputShortGroups | src/raw_io.c:142-143 | an accepted address has no run of more than four hex digits |
| RawIo6Reject.Ip6InputLeadingColon | src/raw_io.c:64-67 | a leading `:` that is not the start of `::` is refused |
| RawIo6Reject.InputShaped | src/raw_io.c:53-145 | every accepted text has at most one `::`, no lone trailing `:`, at most eight groups, eight groups when there is no `::`, and dots only inside a final dotted quad |
| RawIo6Reject.Ip6InputOneGap | src/raw_io.c:86-92 | two distinct `::` positions (a second `::`, or `:::`) are refused |
| RawIo6Reject.Ip6InputTrailingColon | src/raw_io.c:93-94 | a trailing `:` that does not close a `::` is refused |
| RawIo6Reject.Ip6InputGroups | src/raw_io.c:96-98 | an accepted text has at most eight groups, and exactly eight when there is no `::` (lines 121-125) |
| RawIo6Reject.Ip6InputDottedTail | src/raw_io.c:104-117 | a dot is accepted only inside a dotted quad that ends the text and follows a colon and one to six groups |
| Ip4rFuncs.Hostmask | src/ip4r_funcs.h:4-7 | `hostmask(n)` has exactly the low `32 - n` bits set, so it is all ones at 0 and zero at 32 |
| Ip4rFuncs.Netmask | src/ip4r_funcs.h:10-13 | `netmask(n)` is the complement of `hostmask(n)` |
| Ip4rFuncs.MaskBits | src/ip4r_funcs.h:4-13 | masking with the host mask keeps the low `32 - n` bits, or-ing sets them, and the netmask keeps the high `n` bits |
| Ip4rFuncs.MasklenIsCidr | src/ip4r_funcs.h:20-46 | `masklen(lo, hi)` returns `n` if and only if `[lo, hi]` is exactly the aligned `/n` block; otherwise it returns `~0` (None) |
| Ip4rFuncs.MasklenOfCidr | src/ip4r_funcs.h:20-46 | every aligned `/n` block gets `n` back |
| Ip4rFuncs.CidrUnique | src/ip4r_funcs.h:20-46 | a range is the `/n` block for at most one `n`, so the answer is well defined |
| Ip4rFuncs.ValidNetmaskIff | src/ip4r_funcs.h:49-65 | `ip4_valid_netmask(m)` holds if and only if `m` is `netmask(n)` for some `n` in 0..32 |
| Ip4rFuncs.NetmaskIsValid | src/ip4r_funcs.h:49-65 | every `netmask(n)` passes the test |
| Ip4rFuncs.FromCidrSpec | src/ip4r_funcs.h:69-79 | `ip4r_from_cidr` fails exactly when the length exceeds 32 or the prefix has host bits set; otherwise it gives the `/n` block starting at the prefix, whose `masklen` is `n` |
| Ip4rFuncs.FromInetSpec | src/ip4r_funcs.h:82-90 | `ip4r_from_inet` succeeds for every length up to 32 with the `/n` block containing the address |
| Ip4rFuncs.LoopTest | src/ip4r_funcs.h:107-113 | the loop's mask test holds exactly when the block of `2^j` addresses at `lower` is aligned and ends within the range |
| Ip4rFuncs.GrowBlock | src/ip4r_funcs.h:107-113 | the loop stops at the largest such block: it fits and the next larger one does not |
| Ip4rFuncs.SplitCidrSpec | src/ip4r_funcs.h:93-124 | `ip4r_split_cidr` returns a CIDR range whole with `true`; otherwise it returns the largest aligned block at `lower` that ends before `upper`, and the rest of the range after it |
| Ip4rFuncs.PieceIsCidr | src/ip4r_funcs.h:114-121 | each emitted piece is a CIDR block of length `32 - j` |
| Ip4rFuncs.PieceMaximal | src/ip4r_funcs.h:107-113 | no CIDR block starting at `lower` and ending within the range is larger than the piece |
| Ip4rFuncs.SplitProgress | src/ip4r_funcs.h:119-121 | when not done, the remaining range is valid and strictly smaller, so repeated calls terminate |
| Ip4rFuncs.SplitAllTiles | src/ip4r_funcs.h:93-124 | calling the step until done tiles `[lower, upper]` with adjacent, ascending CIDR blocks |
| Ip4rFuncs.TilesCover | src/ip4r_funcs.h:93-124 | a tiling covers exactly the range's addresses, and its pieces are pairwise disjoint and ascending |
| Ip4rFuncs.Union | src/ip4r_funcs.h:149-162 | the union is the least range enclosing both inputs |
| Ip4rFuncs.Inter | src/ip4r_funcs.h:165-186 | the intersection is NULL exactly when no address lies in both ranges; otherwise it holds exactly the common addresses |
| Ip4rFuncs.RangeOrder | src/ip4r_funcs.h:197-212 | equality is identity, and `lessthan` is a strict total order (lexicographic on lower, then upper) with `less_eq` as its reflexive closure |
| Ip4rFuncs.ContainsInternal | src/ip4r_funcs.h:215-220 | on equal ranges the answer is `eqval`; otherwise it is true exactly when every address of the right range is in the left |
| Ip4rFuncs.Overlaps | src/ip4r_funcs.h:223-226 | true exactly when some address lies in both ranges |
| Ip4rFuncs.OverlapsSymmetric | src/ip4r_funcs.h:223-226 | overlap is symmetric |
| Ip4rFuncs.LeftOf | src/ip4r_funcs.h:235-238 | true exactly when every address of the left range is below every address of the right |
| Ip4rFuncs.ExtendsLeftOf | src/ip4r_funcs.h:241-244 | true exactly when the left range has an address below the right range's lower end |
| Ip4rFuncs.ExtendsRightOf | src/ip4r_funcs.h:247-250 | true exactly when the left range has an address above the right range's upper end |
| Ip6rFuncs.FromVal | src/ip6r_funcs.h:127-146 | every value below 2^128 has a limb pair |
| Ip6rFuncs.ValOrder | src/ip6r_funcs.h:177-191 | comparing limbs high first is comparing the 128-bit values, and equal values mean equal limbs |
| Ip6rFuncs.Op6 | src/ip6r_funcs.h:10-37 | limb-wise and, or and xor are the 128-bit bitwise operations on the values |
| Ip6rFuncs.Hostmask6 | src/ip6r_funcs.h:10-25 | `hostmask6_hi`/`_lo` together are the 128-bit mask with the low `128 - n` bits set |
| Ip6rFuncs.HostmaskValue | ip6r_funcs.h:10-25 | the root copy's two limb masks have the same value |
| Ip6rFuncs.Netmask6 | src/ip6r_funcs.h:28-37 | `netmask6_*` is the complement of the host mask |
| Ip6rFuncs.NetmaskLimbs | ip6r_funcs.h:28-37 | the net mask's limbs: the high limb is partial and the low limb zero up to /64, and beyond /64 the high limb is all ones |
| Ip6rFuncs.MaskBits6 | src/ip6r_funcs.h:10-37 | masking with the host mask keeps the low `128 - n` bits, with the net mask the high `n` bits, and or-ing sets the low ones |
| Ip6rFuncs.Compare | src/ip6r_funcs.h:177-184 | `ip6_compare` is -1, 0 or 1 as the first value is below, equal to or above the second |
| Ip6rFuncs.LessThan | src/ip6r_funcs.h:187-191 | `ip6_lessthan` is the unsigned 128-bit order |
| Ip6rFuncs.LessEq | src/ip6r_funcs.h:424-427 | `ip6_less_eq` is its reflexive closure |
| Ip6rFuncs.Sub | src/ip6r_funcs.h:194-198 | `ip6_sub` with its borrow is subtraction modulo 2^128 |
| Ip6rFuncs.SubLimbs | ip6r_funcs.h:151-155 | the root copy's limb subtraction with borrow is subtraction modulo 2^128 |
| Ip6rFuncs.WrapLimbs | ip6r_funcs.h:158-174 | a high limb wrapped modulo 2^64 wraps the 128-bit value modulo 2^128, which is how the carry and borrow of `ip6_sub_int` act |
| Ip6rFuncs.SubInt | src/ip6r_funcs.h:201-217 | `ip6_sub_int(x, k)` is `x - k` modulo 2^128 for every 32-bit `k`, negative ones included |
| Ip6rFuncs.SubIntSucc | src/ip6r_funcs.h:352-354 | below the upper end, `ip6_sub_int(x, -1)` is exactly `x + 1`, the split's next start |
| Ip6rFuncs.InRangeInternal | src/ip6r_funcs.h:220-256 | the limb computation equals the comparison of `val` with the exact integer `base ± offset`, which is never wrapped |
| Ip6rFuncs.InRangeBits | src/ip6r_funcs.h:259-276 | `val` is compared with the first address of the `/bits` network of `base` when subtracting, and with its last when adding |
| Ip6rFuncs.Masklen64Iff | src/ip6r_funcs.h:44-81 | `masklen64(lo, hi, offset)` gives `n + offset` if and only if `[lo, hi]` is the aligned 64-bit block of prefix length `n` |
| Ip6rFuncs.BlockOfMasklen64 | ip6r_funcs.h:44-81 | every answer of the root copy's `masklen64` is such a block |
| Ip6rFuncs.Masklen6Iff | src/ip6r_funcs.h:84-96 | `masklen6(lo, hi)` returns `n` if and only if the range is exactly the `/n` block; otherwise `~0`, including when the high limbs differ but the low limbs are not 0 and all ones |
| Ip6rFuncs.Masklen6SameHigh | ip6r_funcs.h:84-96 | with equal high limbs, the root copy's `masklen6` answers `n` exactly when the range is the `/n` block |
| Ip6rFuncs.Serialize6 | src/ip6r_funcs.h:127-146 | the 16 bytes written are the value big-endian, high limb first |
| Ip6rFuncs.Deserialize6 | src/ip6r_funcs.h:149-168 | the limbs read back are the big-endian values of the two 8-byte halves |
| Ip6rFuncs.SerializeRoundTrip | src/ip6r_funcs.h:127-168 | deserializing what was serialized gives the address |
| Ip6rFuncs.DeserializeRoundTrip | src/ip6r_funcs.h:127-168 | serializing what was deserialized gives the 16 bytes |
| Ip6rFuncs.ValidNetmask6Iff | src/ip6r_funcs.h:99-124 | `ip6_valid_netmask(hi, lo)` holds if and only if the pair is `netmask6(n)` for some `n` in 0..128 |
| Ip6rFuncs.NetmaskOfValid6 | src/ip6r_funcs.h:99-124 | every valid netmask has a prefix length |
| Ip6rFuncs.NetmaskIsValid6 | src/ip6r_funcs.h:99-124 | every `netmask6(n)` passes the test |
| Ip6rFuncs.FromCidr6Spec | src/ip6r_funcs.h:280-292 | `ip6r_from_cidr` fails exactly for lengths above 128 or prefixes with host bits set; otherwise it gives the `/n` block at the prefix, whose `masklen6` is `n` |
| Ip6rFuncs.FromInet6Spec | src/ip6r_funcs.h:295-306 | `ip6r_from_inet` succeeds for every length up to 128 with the `/n` block containing the address |
| Ip6rFuncs.LoopTest6 | src/ip6r_funcs.h:325-340 | the loop's limb tests hold exactly when the next larger aligned block fits |
| Ip6rFuncs.GrowBlock6 | src/ip6r_funcs.h:325-340 | the loop stops at the largest aligned block at `lower` that fits in the range |
| Ip6rFuncs.SplitCidr6Spec | src/ip6r_funcs.h:309-357 | `ip6r_split_cidr` returns a CIDR range whole; otherwise it returns the largest aligned block at `lower` ending before `upper`, and the rest after it |
| Ip6rFuncs.PieceIsCidr6 | src/ip6r_funcs.h:341-350 | each emitted piece is a CIDR block |
| Ip6rFuncs.PieceMaximal6 | src/ip6r_funcs.h:325-340 | no CIDR block at `lower` within the range is larger than the piece |
| Ip6rFuncs.SplitProgress6 | src/ip6r_funcs.h:352-354 | when not done, the remainder is valid and strictly smaller |
| Ip6rFuncs.SplitAll6Tiles | src/ip6r_funcs.h:309-357 | repeating the step tiles the range with adjacent, ascending CIDR blocks |
| Ip6rFuncs.Tiles6Cover | src/ip6r_funcs.h:309-357 | a tiling covers exactly the range's addresses with disjoint, ascending pieces |
| Ip6rFuncs.Union6 | src/ip6r_funcs.h:366-379 | the union is the least range enclosing both inputs |
| Ip6rFuncs.Inter6 | src/ip6r_funcs.h:382-405 | the intersection is NULL exactly on disjoint ranges, and otherwise holds exactly the common addresses |
| Ip6rFuncs.Equal6 | src/ip6r_funcs.h:430-433 | range equality is identity |
| Ip6rFuncs.RangeLessThan6 | src/ip6r_funcs.h:436-444 | `ip6r_lessthan` orders by the value of `lower`, then of `upper` |
| Ip6rFuncs.RangeOrder6 | src/ip6r_funcs.h:424-444 | `ip6r_lessthan` is a strict total order, and `ip6r_less_eq` is its reflexive closure |
| Ip6rFuncs.ContainsInternal6 | src/ip6r_funcs.h:453-458 | on equal ranges the answer is `eqval`; otherwise it is set inclusion of the right range in the left |
| Ip6rFuncs.Overlaps6 | src/ip6r_funcs.h:461-464 | true exactly when some address lies in both ranges |
| Ip6rFuncs.Overlaps6Symmetric | ip6r_funcs.h:308-311 | the root copy's overlap test is symmetric |
| Ip6rFuncs.ContainsIp6 | src/ip6r_funcs.h:467-470 | true exactly when the address lies in the range |
| Ipr.FamilyOf | src/ipr.h:90-103 | an address's family tag is `PGSQL_AF_INET` exactly for IPv4, and otherwise `PGSQL_AF_INET6` |
| Ipr.IpValue | src/ipr.h:81 | an address's value is below 2^maxbits of its family |
| Ipr.AfMaxbits | src/ipr.h:81 | `ipr_af_maxbits` is 32 for `PGSQL_AF_INET` and 128 for every other tag |
| Ipr.IpSizeof | src/ipr.h:82 | `ip_sizeof` is 4 or 16 bytes, one byte per 8 bits of the family's width |
| Ipr.IpPack | src/ipr.h:106-114 | `ip_pack` writes exactly `ip_sizeof(af)` bytes holding the address |
| Ipr.IpUnpack | src/ipr.h:90-103 | `ip_unpack` decides the family by payload length alone (4 for IPv4, 16 for IPv6), and any other length is an internal error |
| Ipr.IpPackRoundTrip | src/ipr.h:90-114 | unpacking a packed address gives back its family and value |
| Ipr.IpUnpackRoundTrip | src/ipr.h:90-114 | every well-sized payload unpacks, and packing the result gives the payload back |
| RangeText.SepPos | src/ip4r.c:31 | `strcspn(str, "-/")`: the first separator, or the end when there is none |
| RangeText.SepPosAfter | src/ip4r.c:31 | in `a` + separator + `b`, with `a` free of separators, the separator found is the one after `a` |
| RangeText.DecNumOfDec | src/ip4r.c:80-83 | the digits of `n` read back as `n` |
| RangeText.PrefixLength | src/ip4r.c:80-83 | a prefix length is accepted exactly when the rest of the text is a nonempty run of decimal digits, and its value is read |
| RangeText.PrefixLengthOfDec | src/ip4r.c:80-83 | the `%u` text of `n` is read back as `n` |
| Ip4r.RangeFromStr | src/ip4r.c:28-90 | every range `ip4r_from_str` produces is ordered |
| Ip4r.NoSepIn | src/ip4r.c:31 | a formatted address holds neither separator and fits the first part's buffer |
| Ip4r.FromStrSingle | src/ip4r.c:36-43 | a text without separator is a single-address range exactly when it is an address |
| Ip4r.FromStrDash | src/ip4r.c:45-66 | `a-b` gives the range between the two addresses, whichever is written first |
| Ip4r.FromStrSlash | src/ip4r.c:68-84 | `a/n` gives the `/n` block at `a` when `n` is a digit string and `a` is aligned, and nothing otherwise |
| Ip4r.FromStrShapes | src/ip4r.c:28-90 | whatever is accepted is a single address, `lower-upper` in either order, or an aligned prefix and a digit string naming its length |
| Ip4r.RangeRoundTrip | src/ip4r.c:96-115 | parsing the text `ip4r_to_str` writes for a range gives the range back |
| Ip4r.RangeToStrFits | src/ipr.h:72 | every range text, with its NUL, fits in `IP4R_STRING_MAX` |
| Ip4r.CastFromBigint | src/ip4r.c:305-315 | a bigint converts exactly when it lies in [-2^31, 2^32), and a negative value maps to its 32-bit two's-complement pattern |
| Ip4r.PlusInt | src/ip4r.c:498-512 | the result is the exact sum, and it is an error exactly when that sum leaves [0, 2^32) |
| Ip4r.PlusBigint | src/ip4r.c:516-531 | the same for a 64-bit addend |
| Ip4r.MinusInt | src/ip4r.c:555-569 | the exact difference, an error exactly when it leaves [0, 2^32) |
| Ip4r.MinusBigint | src/ip4r.c:573-588 | the same for a 64-bit subtrahend |
| Ip4r.NetmaskOf | src/ip4r.c:448-460 | `ip4_netmask` rejects lengths outside 0..32 and otherwise gives a valid netmask with the top `n` bits set |
| Ip4r.NetLower | src/ip4r.c:464-477 | the first address of the `/n` network, with lengths outside 0..32 rejected |
| Ip4r.NetUpper | src/ip4r.c:481-494 | the last address of the `/n` network, with lengths outside 0..32 rejected |
| Ip4r.NetPrefix | src/ip4r.c:926-947 | the `/n` block containing the address, with lengths outside 0..32 rejected |
| Ip4r.NetPrefixIsInet | src/ip4r.c:926-947 | the prefix range is `ip4r_from_inet`'s block, `[ip & mask, ip \| ~mask]`, whose ends are `net_lower` and `net_upper` |
| Ip4r.NetMask | src/ip4r.c:951-971 | `ip4r_net_mask` succeeds exactly when the mask is `netmask(n)` for some `n` |
| Ip4r.NetMaskIsPrefix | src/ip4r.c:951-971 | with a valid mask it gives the same block as `net_prefix` with the mask's length |
| Ip4r.InRangeBigint | src/ip4r.c:1282-1322 | offsets outside [-32, 2^32) are an error; an offset `-n` compares with the start (subtracting) or end (adding) of the `/n` network; otherwise `val` is compared with the exact `base ± offset` |
| Ip4r.InRangeIp4 | src/ip4r.c:1326-1346 | `val` is compared with the exact, unwrapped `base ± offset` |
| Ip4r.UnionAll | src/ip4r.c:1408-1437 | `gip4r_union` encloses every entry, and each of its ends is some entry's end |
| Ip4r.UnionAllLeast | src/ip4r.c:1408-1437 | any range enclosing every entry encloses the union: it is the least bound |
| Ip4r.Classes | src/ip4r.c:1604-1611 | each entry's side is decided against the page union |
| Ip4r.Picksplit4 | src/ip4r.c:1527-1653 | `gip4r_picksplit` puts every entry in exactly one list, leaves neither list empty, and each side's union encloses its entries |
| Ip4r.SideUnions | src/ip4r.c:1594-1602 | the unions `ADDLIST` accumulates enclose the entries of their list |
| Ip4r.PageBound | src/ip4r.c:1551-1563 | the page union encloses every entry |
| Ip4r.SplitListsSpec | src/ip4r.c:1575-1647 | the midpoint split of an all-equal page and the two-pass split both partition the entries into two nonempty lists |
| Ip4r.LeafConsistent | src/ip4r.c:1695-1720 | the leaf test of each strategy (1 to 6) is the operator `>>=`, `<<=`, `>>`, `<<`, `&&` or `=` on the ranges' addresses |
| Ip4r.InternalSound | src/ip4r.c:1735-1757 | an inner key enclosing a matching leaf is never pruned |
| Ip4r.UnionSound | src/ip4r.c:1369-1374 | the union key of a page holding a matching leaf passes the inner test, as the consistency contract requires |
| Ip6r.RangeFromStr | src/ip6r.c:27-89 | every range `ip6r_from_str` produces is ordered |
| Ip6r.NoSepIn | src/ip6r.c:27-89 | a formatted IPv6 address holds no separator and fits the first part's buffer |
| Ip6r.FromStrSingle | src/ip6r.c:35-42 | a text without separator is a single-address range exactly when it is an address |
| Ip6r.FromStrDash | src/ip6r.c:44-65 | `a-b` gives the range between the two addresses in either order |
| Ip6r.FromStrSlash | src/ip6r.c:67-83 | `a/n` gives the aligned `/n` block or nothing |
| Ip6r.RangeRoundTrip | src/ip6r.c:95-114 | parsing the text `ip6r_to_str` writes gives the range back |
| Ip6r.RoundTripSingle | ip6r.c:11-73 | in the root copy too, an address's text parses as its single-address range |
| Ip6r.RoundTripCidr | ip6r.c:79-98 | the `a/n` text of a CIDR block parses back as that block |
| Ip6r.DecLength | src/ip6r.c:95-114 | a prefix length up to 128 prints in at most three digits |
| Ip6r.RangeToStrFits | src/ipr.h:69 | every range text, with its NUL, fits in `IP6R_STRING_MAX` |
| Ip6r.AddLow | src/ip6r.c:518-522 | adding a 64-bit amount to the low limb with carry is addition modulo 2^128 |
| Ip6r.SubLow | src/ip6r.c:524-527 | subtracting a 64-bit amount from the low limb with borrow is subtraction modulo 2^128 |
| Ip6r.WrapCheck | ip6r.c:459-484 | the test `(addend < 0) != (result < ip)` is true exactly when the exact sum leaves [0, 2^128), and otherwise the wrapped result is the exact sum |
| Ip6r.PlusInt | src/ip6r.c:512-537 | the exact sum, an error exactly when it leaves [0, 2^128) |
| Ip6r.PlusBigint | src/ip6r.c:541-566 | the same for a 64-bit addend |
| Ip6r.MinusInt | src/ip6r.c:607-623 | the exact difference, an error exactly when it leaves [0, 2^128) |
| Ip6r.MinusBigint | src/ip6r.c:627-652 | the same for a 64-bit subtrahend |
| Ip6r.PlusMinusInverse | ip6r.c:554-570 | subtracting what was added gives the address back |
| Ip6r.NegWrap32 | src/ip6r.c:525 | C's `-addend` on an `int`, which wraps at `INT_MIN` |
| Ip6r.ToU64 | src/ip6r.c:525 | the `(uint64)` conversion of an in-range `int` |
| Ip6r.PlusIntAsWritten | src/ip6r.c:512-537 | the code as written agrees with `PlusInt` except at `INT_MIN` |
| Ip6r.PlusIntMinInt | src/ip6r.c:524-527 | at `INT_MIN` the code as written gives `::8000:0` for `0:0:0:1::`, where the exact sum is `::ffff:ffff:8000:0` |
| Ip6r.SubIntAsWritten | src/ip6r_funcs.h:201-217 | `ip6_sub_int` as written agrees with `SubInt` except at `INT_MIN` |
| Ip6r.MinusIntAsWritten | src/ip6r.c:607-623 | `ip6_minus_int` as written agrees with `MinusInt` except at `INT_MIN` |
| Ip6r.MinusIntMinInt | src/ip6r_funcs.h:210-213 | at `INT_MIN` the code as written gives `0:0:0:1::` for `::8000:0`, where the exact difference is `::1:0:0` |
| Ip6r.NetmaskOf | src/ip6r.c:448-464 | lengths outside 0..128 are rejected; otherwise the mask has the top `n` bits set |
| Ip6r.NetLower | src/ip6r.c:468-486 | the first address of the `/n` network, with lengths outside 0..128 rejected |
| Ip6r.NetUpper | src/ip6r.c:490-508 | the last address of the `/n` network, with lengths outside 0..128 rejected |
| Ip6r.NetPrefix | src/ip6r.c:997-1014 | the `/n` block containing the address, with lengths outside 0..128 rejected |
| Ip6r.NetPrefixBounds | ip6r.c:911-928 | the prefix block's ends are `net_lower` and `net_upper` |
| Ip6r.NetMask | src/ip6r.c:1018-1040 | succeeds exactly when the mask is `netmask6(n)` for some `n` |
| Ip6r.NetMaskIsPrefix | ip6r.c:932-954 | with a valid mask it gives the same block as `net_prefix` |
| Ip6r.InRangeBigint | src/ip6r.c:1341-1370 | offsets below -128 are an error; an offset `-n` compares with the start or end of the `/n` network; otherwise `val` is compared with the exact `base ± offset` |
| Ip6r.UnionAll | src/ip6r.c:1511-1540 | `gip6r_union` encloses every entry, and its ends are entries' ends |
| Ip6r.UnionAllLeast | ip6r.c:1266-1295 | it is the least enclosing range |
| Ip6r.SideOfMeaning | src/ip6r.c:1732-1737 | the limb differences are the exact distances to the page union's ends, so an entry goes left exactly when it is nearer the lower end, and ties exactly when the distances are equal |
| Ip6r.Classes | src/ip6r.c:1726-1737 | each entry's side is decided against the page union |
| Ip6r.Picksplit6 | src/ip6r.c:1650-1786 | every entry lands in exactly one list, neither list is empty, and each side's union encloses its entries |
| Ip6r.SideUnions | src/ip6r.c:1716-1724 | the accumulated unions enclose their lists |
| Ip6r.PageBound | src/ip6r.c:1675-1686 | the page union encloses every entry |
| Ip6r.SplitListsSpec | src/ip6r.c:1697-1780 | the midpoint split and the two-pass split both partition the entries into two nonempty lists |
| Ip6r.HighEndNotLeft | ip6r.c:1398-1534 | an entry reaching the page union's upper end never goes left |
| Ip6r.LowEndTie | src/ip6r.c:1764-1777 | an entry at the page union's lower end that does not go left is a tie |
| Ip6r.LeafConsistent | src/ip6r.c:1828-1853 | the leaf test of each strategy is the corresponding range operator on addresses |
| Ip6r.InternalSound | ip6r.c:1616-1638 | an inner key enclosing a matching leaf is never pruned |
| Ip6r.UnionSound | src/ip6r.c:1868-1890 | the union key of a page holding a matching leaf passes the inner test |
| IpAddr.CStr | src/ipaddr.c:361-362 | the C string of a text: its prefix up to the first NUL |
| IpAddr.AddrIn | src/ipaddr.c:191-211 | a text with a `:` is read by the IPv6 parser and any other text by the IPv4 parser, with no fallback; failure is exactly that parser's refusal |
| IpAddr.CastFromText | src/ipaddr.c:351-380 | a text of `IP6_STRING_MAX` characters or more is refused; a shorter one is read up to its first NUL as `ipaddr_in` reads it |
| IpAddr.Ip6OutputColon | src/raw_io.c:153-269 | every IPv6 text holds a `:`, so it goes back to the IPv6 parser |
| IpAddr.Ip4OutputNoColon | src/raw_io.c:147-151 | no IPv4 text holds a `:` or a NUL |
| IpAddr.AddrRoundTrip | src/ipaddr.c:215-232 | reading the text `ipaddr_out` writes gives the address back, both through `ipaddr_in` and through the text cast |
| IpAddr.Family | src/ipaddr.c:546-555 | `family()` is 6 for IPv6 and 4 for IPv4 |
| IpAddr.CastToIp4 | src/ipaddr.c:447-461 | converts exactly the IPv4 values, and anything else is an error |
| IpAddr.CastToIp6 | src/ipaddr.c:465-481 | converts exactly the IPv6 values |
| IpAddr.Transform1 | src/ipaddr.c:68-89 | the family's operation is applied and the result keeps the family |
| IpAddr.AddrNot | src/ipaddr.c:675-678 | every bit of the address is flipped within its family's width |
| IpAddr.AddrNotTwice | src/ipaddr.c:675-678 | complementing twice gives the address back |
| IpAddr.Transform2d | src/ipaddr.c:96-117 | the family's operation decides success and value, and the result keeps the family |
| IpAddr.PlusInt | src/ipaddr.c:574-577 | the exact sum within the family's address space, and an error when it leaves it |
| IpAddr.PlusBigint | src/ipaddr.c:581-584 | the same for a 64-bit addend |
| IpAddr.MinusInt | src/ipaddr.c:595-598 | the exact difference within the family's space, and an error otherwise |
| IpAddr.MinusBigint | src/ipaddr.c:602-605 | the same for a 64-bit subtrahend |
| IpAddr.PlusMinusInverse | src/ipaddr.c:574-598 | subtracting what was added gives the address back |
| IpAddr.NetLower | src/ipaddr.c:560-563 | the first address of the `/n` network, with lengths beyond the family's width rejected |
| IpAddr.NetUpper | src/ipaddr.c:567-570 | the last address of the `/n` network, with the same rejection |
| IpAddr.Transform2 | src/ipaddr.c:123-153 | operands of different families are a family-mixing error; otherwise the family's operation is applied |
| IpAddr.Bitwise | src/ipaddr.c:654-671 | `&`, `\|` and `^` are the bitwise operations on values of one family, and mixing families is an error |
| IpAddr.MinusAddr | src/ipaddr.c:616-650 | the exact difference of two addresses of one family, and a family-mixing error otherwise |
| IpAddr.MinusAddrInverse | src/ipaddr.c:616-650 | subtracting that difference from the first address gives the second |
| IpAddr.Ip4Cmp | src/ip4r.c:1261-1270 | `ip4_cmp` is -1, 0 or 1 by the order of the addresses |
| IpAddr.RankInjective | src/ipaddr.c:798-833 | an address's position in the order determines the address |
| IpAddr.Cmp | src/ipaddr.c:798-833 | across families the larger tag is larger; within a family the family's comparison decides; zero exactly for equal addresses |
| IpAddr.Ip4BeforeIp6 | src/ipaddr.c:810-813 | every IPv4 address sorts before every IPv6 address |
| IpAddr.ComparisonBool | src/ipaddr.c:690-729 | across families the flag for the operand with the larger tag decides; within a family the family's predicate does |
| IpAddr.Lt | src/ipaddr.c:733-741 | `<` agrees with `ipaddr_cmp` |
| IpAddr.Le | src/ipaddr.c:743-751 | `<=` agrees with `ipaddr_cmp` |
| IpAddr.Gt | src/ipaddr.c:753-761 | `>` agrees with `ipaddr_cmp` |
| IpAddr.Ge | src/ipaddr.c:763-771 | `>=` agrees with `ipaddr_cmp` |
| IpAddr.Eq | src/ipaddr.c:773-781 | `=` is identity, so it is false across families |
| IpAddr.Neq | src/ipaddr.c:783-791 | `<>` is non-identity, so it is true across families |
| IpAddr.CmpOrder | src/ipaddr.c:798-833 | `ipaddr_cmp` is antisymmetric and transitive |
| IpRange.Af | src/iprange.c:59-71 | the family tag is 0 exactly for the universal range, `PGSQL_AF_INET` for IPv4 and `PGSQL_AF_INET6` for IPv6 |
| IpRange.Pack | src/iprange.c:114-158 | `ipr_pack` writes 0 bytes for the universal range, 8 for any IPv4 range, 9 for an IPv6 block of /0 to /64, 17 for /65 to /128, and 32 for a non-CIDR IPv6 range |
| IpRange.Unpack | src/iprange.c:73-112 | `ipr_unpack` accepts exactly the lengths 0, 8, 9, 17 and 32, decides the family by length, and raises an internal error otherwise |
| IpRange.PackRoundTrip | src/iprange.c:73-158 | unpacking a packed range gives it back |
| IpRange.PrefixRebuilt | src/iprange.c:86-103 | `lower \| hostmask6(n)` rebuilds the upper end of a `/n` block |
| IpRange.Cmp | src/iprange.c:1178-1224 | `iprange_cmp_internal` orders by family tag (universal, then IPv4, then IPv6), then lexicographically by lower and upper, and is zero exactly for equal ranges |
| IpRange.CmpOrder | src/iprange.c:1178-1224 | the comparison is antisymmetric and transitive |
| IpRange.Overlaps | src/iprange.c:1269-1308 | true exactly when some address lies in both ranges, so always true with the universal range and false across concrete families |
| IpRange.Contains | src/iprange.c:1311-1350 | `eqval` on equal ranges; otherwise true exactly when every address of the right range is in the left, so the universal range contains everything and nothing concrete contains it |
| IpRange.ContainsIp | src/iprange.c:1353-1387 | true exactly when the address is in the range |
| IpRange.EnclosesMeaning | src/iprange.c:1311-1350 | one range bounds another exactly when it holds all of its addresses |
| IpRange.Union | src/iprange.c:1493-1524 | the least range enclosing both, which is universal exactly when either is universal or the families differ |
| IpRange.Inter | src/iprange.c:1528-1565 | NULL exactly when no address is common; otherwise exactly the common addresses |
| IpRange.CidrSplit | src/iprange.c:1098-1171 | the universal range splits into the two rows `0.0.0.0/0` and `::/0`, and every row is a CIDR block of the range's family |
| IpRange.CidrSplitCovers | src/iprange.c:1098-1171 | the rows hold exactly the range's addresses, and no address is in two rows |
| IpRange.Same | src/iprange.c:2241-2274 | `gipr_same` is identity of keys |
| IpRange.Running | src/iprange.c:1784-1815 | the running union encloses every entry; all-equal holds exactly when every entry equals the first, and then the union is that entry |
| IpRange.RunningLeast | src/iprange.c:1784-1815 | the running union is the least enclosing range |
| IpRange.RunningEnds | src/iprange.c:1784-1815 | within one family, the union's ends are entries' ends |
| IpRange.UnionKey | src/iprange.c:1818-1892 | the page key encloses every entry; it is universal exactly when entry 0 is universal or the families are mixed; and the flags keep the quirk that a universal entry 0 leaves all-equal and same-family true |
| IpRange.UnionKeyLeast | src/iprange.c:1818-1892 | the page key is the least enclosing range |
| IpRange.SideOfMeaning | src/iprange.c:2141-2168 | the per-family test `cur.u - pu.l < pu.u - cur.l` sends an entry left exactly when its midpoint is below the page union's, and ties when they are equal |
| IpRange.Classes | src/iprange.c:2141-2168 | each entry's side on a one-family page |
| IpRange.AfClasses | src/iprange.c:2121-2140 | on a mixed page an entry goes left exactly when its family differs from the right-hand family |
| IpRange.MixedSplitSides | src/iprange.c:2121-2140 | on a mixed page, universal entries (failing those, IPv6 ones) go right and the rest go left |
| IpRange.MixedSplitNonempty | src/iprange.c:2121-2140 | that split leaves both lists nonempty, matching the assertion at line 2176 |
| IpRange.SplitListsSpec | src/iprange.c:2054-2232 | the midpoint, mixed-family and two-pass splits all partition the entries into two nonempty lists |
| IpRange.TopBottom | src/iprange.c:2170-2226 | the entries at the page union's ends sit at or above, and at or below, its midpoint |
| IpRange.SplitPage | src/iprange.c:2054-2232 | `gipr_picksplit` puts every entry in exactly one nonempty list, and each side's key encloses its entries |
| IpRange.PageBound | src/iprange.c:2076-2077 | the page union encloses every entry |
| IpRange.LeafConsistentAgrees | src/iprange.c:2292-2378 | the leaf test of strategies 1 to 6 is `iprange_contains_internal` (non-strict and strict, both ways), `iprange_overlaps_internal`, or `iprange_cmp_internal` being 0, including both universal rows |
| IpRange.LeafConsistentMeaning | src/iprange.c:2292-2378 | the leaf test is containment, strict containment, overlap or equality of the ranges' address sets |
| IpRange.InternalConsistentAsWritten | src/iprange.c:2393-2441 | the code as written agrees with the corrected test except on strategy 4 against the universal query, which it always refuses |
| IpRange.AsWrittenPrunesMatch | src/iprange.c:2404-2405 | the leaf `0.0.0.0` matches `<< '-'`, yet the test as written refuses an inner key equal to it |
| IpRange.InternalSound | src/iprange.c:2393-2441 | with lines 2404-2405 removed, an inner key enclosing a matching leaf is never pruned, the promise of lines 1743-1748 |
| IpRange.UnionSound | src/iprange.c:1743-1748 | the union key of a page holding a matching leaf passes the corrected inner test |
| Picksplit.PartitionExact | src/ip4r.c:1594-1602 | a partition puts each entry number 1..n in exactly one list, and the list sizes add up to n |
| Picksplit.Midpoint | src/ip4r.c:1575-1591 | an all-equal page splits at `split_at = 1 + n / 2`: the first `n / 2` offsets go left and the rest right, so both lists are nonempty once `n >= 2` |
| Picksplit.Place | src/ip4r.c:1594-1645 | placing entries in order by side keeps every entry exactly once |
| Picksplit.PlaceSides | src/ip4r.c:1631-1645 | a left entry goes left, a right entry goes right, and in the first pass a tie goes right |
| Picksplit.FirstPassSides | src/ip4r.c:1604-1611 | in the first pass an entry goes left exactly when it is nearer the lower end |
| Picksplit.PlaceFirstPass | src/ip4r.c:1604-1614 | the first pass leaves the left list empty only when nothing is nearer the lower end, and the right list empty only when everything is |
| Picksplit.ResplitLeft | src/ip4r.c:1630-1645 | with nothing nearer the lower end, the resplit's left list is empty exactly when there is no tie |
| Picksplit.ResplitTies | src/ip4r.c:1636-1642 | ties alternate toward the shorter list, so a page of ties splits evenly |
| Picksplit.ResplitNonempty | src/ip4r.c:1613-1647 | when the first pass sent everything right and there is a tie, the resplit leaves both lists nonempty |
| Picksplit.ReorderClasses | src/ip4r.c:1625-1628 | sorting the entries keeps their sides, so a tie survives into the resplit |
| Picksplit.TwoPassSpec | src/ip4r.c:1604-1650 | whatever order the sort yields, if some entry does not go left and the entry at the lower end goes left or ties, the two passes partition the page into two nonempty lists |

## Left out

- PostgreSQL glue is not modelled, because it is framework plumbing. This covers argument and result passing, memory management, detoasting, and the error reporting that `Failure` stands for.
- GiST compress, decompress and fetch are not modelled, because they only wrap `ipr_pack` and `ipr_unpack`.
- The `consistent` dispatchers are not modelled, because they only choose between the leaf and inner tests.
- `gip4r_same` and `gip6r_same` are not modelled, because they are plain equality.
- Hash functions are not modelled, because they hash raw bytes with a PostgreSQL routine outside this code.
- The `numeric` paths are not modelled, because they call PostgreSQL's bignum library. This covers the casts, `*_plus_numeric`, `*_minus_numeric` and `*_size_exact`.
- Floating-point code is not modelled. This covers `metric`, `size`, the GiST penalties and the `double` casts.
- The picksplit fallback's sort uses `double` sizes. The model takes the order as a parameter that can be any permutation of the entries, and every picksplit property is proved for all orders.
- Wire-protocol send and receive are not modelled, nor the casts to and from `inet`, `cidr`, `bit` and `bytea`, because they are wrappers over PostgreSQL structures. Only `ip6_serialize` and `ip6_deserialize` are kept.
- The set-returning plumbing of the `*_cidr_split` functions is not modelled. Only the split step, the repetition of the step, and the universal range's two rows are.
- Stored payloads are kept as typed fields plus their length, not as bytes, because `ipr_pack` and `ip_pack` copy in host byte order.
- `src/ipr_internal.h` is not part of this model, because it holds only declarations.
- The masks and CIDR constructors reject a length beyond the address width before building any mask. The C code computes `hostmask(n)` first, which for such `n` is an undefined shift.
- `gipr_same` with a NULL key is not modelled.
- RangeText.PrefixLength: reads the digits after `/` as their exact decimal value. C reads them with `sscanf("%u")` (src/ip4r.c:82, src/ip6r.c:81), which on glibc keeps the value modulo 2^32. So `10.0.0.0/4294967304` is accepted there as `10.0.0.0/8`, but refused here. The C standard leaves that overflow undefined.
- Ip4r.RangeFromStr: inherits the exact prefix-length reading of `PrefixLength`, not the `%u` wrap-around.
- Ip6r.RangeFromStr: inherits the exact prefix-length reading of `PrefixLength`, not the `%u` wrap-around.
- Ip6r.PlusInt: gives the exact sum at `INT_MIN` too. The code as written computes `-addend` in `int`, which wraps there. That case is modelled separately by `Ip6r.PlusIntAsWritten` (see Findings).
- Ip6r.MinusInt: gives the exact difference at `INT_MIN` too. The code as written goes through `ip6_sub_int`, modelled by `Ip6r.MinusIntAsWritten` (see Findings).
- Ip6rFuncs.SubInt: is `x - k` modulo 2^128 at `INT_MIN` too. The code as written, modelled by `Ip6r.SubIntAsWritten`, adds 2^64 - 2^31 there (see Findings).
- IpAddr.PlusInt: uses the corrected `Ip6r.PlusInt` for IPv6 values, so it also differs from the code at `INT_MIN`.
- IpAddr.MinusInt: uses the corrected `Ip6r.MinusInt` for IPv6 values, so it also differs from the code at `INT_MIN`.
- IpRange.InternalSound: is stated about the corrected inner test. The code as written is modelled by `IpRange.InternalConsistentAsWritten` (see Findings).
- The `-INT64_MIN` of `ip6_plus_bigint` and `ip6_minus_bigint` is not modelled: the model gives the exact result for every 64-bit amount.

## Findings

| source | as written | input that shows it | evidently intended | confidence | as-written member | corrected member |
|---|---|---|---|---|---|---|
| src/ip6r.c:524-527 | `ip->bits[1] - (uint64)(-addend)`, where `-addend` is computed in `int`; at `INT_MIN` it stays `INT_MIN`, so the code subtracts 2^64 - 2^31, which is the same as adding 2^31 | `'0:0:0:1::'::ip6 + (-2147483648)` gives `::8000:0` with no error; the root copy `ip6r.c` has the same line | `::ffff:ffff:8000:0`, the address 2^31 lower | not executed; high (assumes the wrapping negation PostgreSQL's `-fwrapv` build gives) | Ip6r.PlusIntAsWritten | Ip6r.PlusInt |
| src/ip6r_funcs.h:210-213 | `ip6_sub_int` adds `(uint64)(-subtrahend)`, which at `INT_MIN` is 2^64 - 2^31, so it subtracts 2^31 instead of adding it; `ip6_minus_int` (src/ip6r.c:613-615) then sees no wrap | `'::8000:0'::ip6 - (-2147483648)` gives `0:0:0:1::` with no error | `::1:0:0`, the address 2^31 higher | not executed; high (same assumption) | Ip6r.MinusIntAsWritten | Ip6r.MinusInt |
| src/iprange.c:2404-2405 | `gipr_internal_consistent` returns false for every inner key when the query is universal and the strategy is 4 (`<<`) | `col << '-'::iprange` on a GiST index: the leaf `0.0.0.0` is strictly inside `-` and matches (lines 2331-2332), but every subtree holding it is pruned, so the index scan returns nothing | never prune for a universal query, like lines 2406-2407, as the comment at lines 1743-1748 requires | not executed; high | IpRange.InternalConsistentAsWritten | IpRange.InternalSound |

The counterexamples are proved as lemmas:

- `Ip6r.PlusIntMinInt` proves the first row's input and both results.
- `Ip6r.MinusIntMinInt` proves the second row's input and both results.
- `Ip6r.SubIntAsWritten` models the `ip6_sub_int` that the second row goes through.
- `IpRange.AsWrittenPrunesMatch` proves the third row's pruned match.
- `IpRange.UnionSound` proves that the corrected test never prunes a page's union key.
