# Verification of the core of unstrung

unstrung is an implementation of the RPL routing protocol (RFC 6550) for Linux, with its own library
for addresses and subnets as text. This project models the parts of it whose correctness is hardest to see
from one function at a time, and proves what they promise. Code that changes buffers, fields and chains in place is
modelled in place, by methods over arrays and classes, each tied to a function of its input or of the old state;
the theorems are lemmas about these functions, or invariants kept by every step.

**Addresses and subnets as text.** `NumberText` is the number printer and parser. `Ipv6Grammar` says which texts are
written IPv6 addresses and proves that the parser accepts exactly those, with their meaning; `Ipv6Parser` is the code
that fills sixteen bytes and shifts them to make room for the gap; `Ipv6Printer` is the printer, which searches, moves
and trims text in its own buffer. `Ipv4Text` does the same for dotted decimal. `Address` and `Subnet` hold the bit
arithmetic of masks, host parts and containment; `SubnetText` puts everything together for subnets. The printers and
parsers undo each other on all addresses and all subnets. `ReverseText` holds the names for reverse lookup, `AddressForms`
the other forms: masks as addresses, ports, hexadecimal addresses, and what is left to the name service.

**RPL.** `RplOptions` is the search for options with one cached cursor a type, compared with a plain scan, and
`RplOptionStream` compares the scan with what was written. `RplTypes` holds addresses and prefixes; `DaoCodec` and
`DioCodec` build and read the messages, byte by byte. `DagSpec` gives what one node does with a message as functions on
its state, and `DagNetwork` is the class that does the same in place. `SequenceRuns` follows the sequence filter over
runs. `RplNetwork` is the network as a transition system in which messages are delayed, duplicated, reordered and lost:
ranks never rise and the best-parent graph is always a tree that leads to the root. `RplAgreement` proves, over the same
runs, what an accepted DAO-ACK stands for, and `DagRuns` what becomes of learnt prefixes and of the routes upwards.
`RplProgress` says exactly what a message makes a node do, and `RplReach` what comes of it over runs: which routes there
are, and that every tree can form. `RplWire` is the network once more, with nothing between the nodes but the bytes that
the builders made: each of its runs is a run of `RplNetwork`, so the theorems hold of the bytes.

**Events.** `EventTime` is the arithmetic on times, with the widths of the C types. `EventQueue` is the queue of events,
whose keys change while they are queued, and the loop that runs what is due: it ends, runs each due event once, and
leaves nothing due.

**Three algorithms.** `MacTable` is the switch's table of addresses, 128 doubly linked chains, as a map. `Checksum`
relates the checksum that the code stores to the sum of a receiver. `Netlink` builds nested attributes in a buffer and
reads them back.

## What was found

Where the code and what it says of itself differ, the model follows the code. For each difference there is a theorem that
says exactly when it shows, and an input that shows it where the theorem does not give one away.

* A `::` that stands for a single group, which section 2.2 of RFC 4291 allows, is refused by the parser
  (`Ipv6Grammar.SingleGroupGapIsRejected`; `Ipv6Grammar.ParsesExactly`). The printer never writes one.
* The printer squeezes the first run of two zero groups or more. That is the run which section 4.2.3 of RFC 5952 asks for
  if and only if no later run is longer (`Ipv6Printer.RecommendedExactly`); `1:0:0:1:0:0:0:1` is an address for which it
  is not (`Ipv6Printer.LaterRunIsLonger`).
* `initsubnet` tests the byte that the count falls in and not the count, so it accepts exactly the counts up to seven more
  than the address has bits (`Subnet.AcceptedCounts`). A subnet made with a count too many holds no address, not even
  its own (`Subnet.MadeSubnetMembers`; `Subnet.OneBitTooMany` has the count 129).
* In base 16 the search for a digit finds the terminating NUL of the digit table, so an embedded NUL counts as digit 16
  (`NumberText.NulIsADigit`). The texts accepted are exactly those of 1 to 16 characters that are digits or NUL
  (`NumberText.HexAcceptsExactly`).
* A cached option cursor of 0 means both "unset" and "at the start": the search is exact for a type just when it does not
  occur both at offset 0 and again later (`RplOptions.CursorsAreLinear`); `RplOptions.FirstOptionSkipped` is a message
  that fails.
* build_dao goes on after a target that does not fit, moving its end back by one. The receiver gets all targets if and only
  if they fit the buffer (`DaoCodec.AllTargetsExactly`), which are 101 targets at most (`RplWire.RoomForTargets`). Up to 16
  more, it can read the DAO if and only if at most three are too many, and then gets the first 101
  (`RplWire.ReadableExactly`, `RplWire.FirstTargetsArrive`). One more is laid over the 101st, which then names an address
  that nobody has (`RplWire.LastTargetOverwrites`).
* A DIO carries eight bits of the instance, and the search for a DAG compares them with the whole number: a node hears
  the others of its instance if and only if that is at most 255 (`RplWire.HeardExactly`).
* An alarm interval is computed in 32 bits: it is what was asked for just when it is at most 4294967 ms
  (`EventTime.AlarmIsExact`). The carry loop tests for more than a million microseconds and leaves a million as it is:
  `EventTime.AlarmReachesMillion` is such an alarm, and `EventTime.AlarmIsClockTime` says exactly which alarms are not.
* An event is due again at once if and only if its interval comes to nothing in 32 bits (`EventQueue.DueAgainExactly`).
  The drain loop ends if there is no such event among those that are due and succeed (`EventQueue.RplEventQueue.Drain`);
  with one queued, the event on top is still due after any number of turns (`EventQueue.RplEventQueue.DrainTurns`).
* A DAO-ACK carries eight bits of a sixteen-bit counter. An answer of the best parent to the latest DAO makes the node
  commit if and only if the number of that DAO is at most 255 (`RplAgreement.CommitsExactly`, and
  `RplAgreement.CommitsByNumber` past the wrap of the counter); from the 256th number on it commits to no parent until
  the counter wraps (`RplAgreement.NoCommitPast255`).
* A DIO with sequence number 0 is never dropped as old (`SequenceRuns.DroppedExactly`).
* The setter of the flag `installed` assigns its own parameter, so no prefix that a node learns is ever installed: over
  any run its installed prefixes are those that it started with, as the root does with its own
  (`DagRuns.HistoryOverRuns`). An announcement counts as new, however often it is repeated, if and only if its prefix is
  not one of these (`DagRuns.NewThroughoutRuns`).
* `addattr_nest` does not say that there was no room (`Netlink.NlMessage.AddattrNest` has the exact condition). For a nest
  that was not opened, `addattr_nest_end` writes a length of 0 behind the tail, and the message is what it was
  (`Netlink.NlMessage.AddattrNestEnd`).

## Model

| member | source | states |
|---|---|---|
| NumberText.Ultot | lib/libosw/ultot.c:22-82 | the return value is the room the whole text needs, the text is cut to the room given with its NUL, nothing else is written, and the local buffer of 25 characters is never overrun |
| NumberText.EmitDigits | lib/libosw/ultot.c:39-66 | the backward do-while loop leaves exactly the positional notation of the number before the place it started from |
| NumberText.PadToWidth | lib/libosw/ultot.c:53-55 | base 17 is padded with zeros to eight digits and never cut |
| NumberText.Ttoul | lib/libosw/ttoul.c:22-90 | the parser agrees with its specification for every text, length and base, errors and guessed bases included |
| NumberText.ScanDecimal | lib/libosw/ttoul.c:75-85 | the accumulating loop reports overflow exactly when some prefix of digits leaves 64 bits, before it looks at a later bad character |
| NumberText.ScanHex | lib/libosw/ttoul.c:57-73 | the hexadecimal branch with its limit on the number of digits |
| NumberText.OverflowGuard | lib/libosw/ttoul.c:75-84 | the test by division fires just when appending the digit leaves 64 bits |
| NumberText.DecimalAcceptsExactly | lib/libosw/ttoul.c:74-89 | bases 8 and 10 succeed exactly on digit strings whose value fits, with that value |
| NumberText.HexAcceptsExactly | lib/libosw/ttoul.c:57-73 | for every text, base 16 succeeds exactly when it has 1 to 16 characters, each a digit or NUL; without a NUL the value is that of the digits |
| NumberText.NulIsADigit | lib/libosw/ttoul.c:62-70 | the text of one NUL is read as 16 |
| NumberText.NumberRoundTrip | lib/libosw/ultot.c:29-81 | parsing what is printed gives the number back, in every base, padded or not |
| NumberText.GuessedBaseRoundTrip | lib/libosw/ttoul.c:44-51 | base 0 recovers the decimal, `0x` and `0` formats of every number |
| NumberText.DigitsAreSmall | lib/libosw/ultot.c:30-45 | every digit printed is that of the table, so letters are small |
| NumberText.MarkedForms | lib/libosw/ultot.c:34-72 | how the printed forms of a number relate |
| Ipv6Grammar.ParsesExactly | lib/libosw/ttoaddr.c:314-385 | a text parses to eight groups if and only if it is a written form of them: eight groups of 1 to 4 digits, or at most six around one gap |
| Ipv6Grammar.AcceptsWritten | lib/libosw/ttoaddr.c:331-384 | every written address is accepted and the gap is filled with zeros |
| Ipv6Grammar.AcceptedIsWritten | lib/libosw/ttoaddr.c:331-384 | for an accepted text the written form that it is can be named, with the same meaning |
| Ipv6Grammar.SingleGroupGapIsRejected | lib/libosw/ttoaddr.c:367-373 | a gap for a single group is refused whatever the seven groups are |
| Ipv6Parser.Colon | lib/libosw/ttoaddr.c:314-385 | the parser over a buffer of sixteen bytes returns what the grammar says, errors included |
| Ipv6Parser.FillGap | lib/libosw/ttoaddr.c:374-382 | the loop that shifts the pieces behind the gap to the right, in place, and clears the rest |
| Ipv6Parser.Getpiece | lib/libosw/ttoaddr.c:390-425 | one field: empty, bad, too long, or its value and its length |
| Ipv6Parser.ScanPieces | lib/libosw/ttoaddr.c:348-369 | the loop over fields and colons leaves the scanned pieces and the place of the gap |
| Ipv6Printer.Normal6 | lib/libosw/addrtot.c:144-189 | the text left in the buffer is the chosen written form, squeezed or not, and starts and ends where the code says |
| Ipv6Printer.Squish | lib/libosw/addrtot.c:168-181 | from the first pair of zero groups on, the whole run is replaced by a gap and the rest moved down |
| Ipv6Printer.MoveDown | lib/libosw/addrtot.c:174-176 | the overlapping copy keeps the moved text and what is before it |
| Ipv6Printer.TrimEnds | lib/libosw/addrtot.c:177-181 | the colons at the two ends are stripped unless they are part of the gap |
| Ipv6Printer.Strstr | lib/libosw/addrtot.c:31-56 | the first occurrence, or none |
| Ipv6Printer.FirstPairIsFirstOccurrence | lib/libosw/addrtot.c:167-168 | searching the text for two zero groups finds the fence before the first pair of zero pieces, and nothing else does |
| Ipv6Printer.RecommendedExactly | lib/libosw/addrtot.c:167-181 | the gap is the first of the longest runs of zero groups if and only if no run behind the first pair is longer than the first |
| Ipv6Printer.LaterRunIsLonger | lib/libosw/addrtot.c:167-168 | an address whose gap is the shorter one of two runs |
| Ipv6Printer.ChosenMeans | lib/libosw/addrtot.c:144-189 | the chosen form is well formed and means the address, so its gap is never a single group |
| Ipv6Printer.Ipv6RoundTrip | lib/libosw/addrtot.c:144-189 | for all 2^128 addresses, squeezed or not, parsing the printed text gives the address back |
| Ipv6Printer.RenderedLength | lib/libosw/addrtot.c:144-189 | no address takes more than 39 characters |
| Ipv4Text.Trydotted | lib/libosw/ttoaddr.c:237-272 | the dotted parser agrees with its specification, errors and their marks included |
| Ipv4Text.Getbyte | lib/libosw/ttoaddr.c:283-309 | one field: nothing there, no digit, over 255, or its value |
| Ipv4Text.ParsesExactly | lib/libosw/ttoaddr.c:250-271 | a text parses to four bytes if and only if it is a dotted form of them: one to four fields up to 255, missing ones zero, a final dot only when some are missing |
| Ipv4Text.Normal4 | lib/libosw/addrtot.c:119-139 | the printed text and its length, within 16 characters |
| Ipv4Text.Ipv4RoundTrip | lib/libosw/addrtot.c:119-139 | parsing the printed text gives the four bytes back |
| Subnet.Maskof | lib/libosw/subnettypeof.c:43-65 | a mask of the asked number of one bits, and nothing when it does not fit |
| Subnet.MaskIsMaskBytes | lib/libosw/subnettypeof.c:43-65 | a byte string is k one bits followed by zeros exactly when it is the mask for k |
| Subnet.Masktocount | lib/libosw/subnettypeof.c:70-108 | the scan by bytes and then by bits agrees with its specification |
| Subnet.CountOfMask | lib/libosw/subnettypeof.c:70-108 | a mask of k bits is counted as k |
| Subnet.NotContiguous | lib/libosw/subnettypeof.c:70-108 | a one bit behind a zero bit makes the count -1 |
| Subnet.CountUndoesMask | lib/libosw/subnettypeof.c:43-108 | counting the mask made for k gives k, for every length and k |
| Subnet.Initsubnet | lib/libosw/initsubnet.c:24-76 | the loop that clears or complains about host bits agrees with its specification, in both modes |
| Subnet.StrictInitSubnet | lib/libosw/initsubnet.c:54-74 | mode `x` succeeds exactly when the host bits are clear already, and changes nothing |
| Subnet.RefusedExactly | lib/libosw/initsubnet.c:36-69 | each refusal and the one reason for it |
| Subnet.AcceptedCounts | lib/libosw/initsubnet.c:54-56 | mode `0` succeeds exactly for counts up to seven more than the address has bits |
| Subnet.OneBitTooMany | lib/libosw/initsubnet.c:54-74 | 129 bits of an IPv6 address are accepted and the subnet does not hold the address |
| Subnet.MadeSubnetMembers | lib/libosw/initsubnet.c:54-74 | for every accepted count, the subnet made in mode `0` contains exactly the addresses that mask to the same network, and none if the count exceeds the address |
| Subnet.Samenbits | lib/libosw/sameaddr.c:119-147 | the byte loop agrees with its specification |
| Subnet.SameTopIsSameNumber | lib/libosw/sameaddr.c:119-147 | equal first n bits means equal numbers in those bits |
| Subnet.ContainmentIsInclusion | lib/libosw/sameaddr.c:93-114 | one subnet is in another exactly when all its addresses are |
| Subnet.ContainmentIsTransitive | lib/libosw/sameaddr.c:105-114 | containment is transitive |
| Subnet.NestedOrDisjoint | lib/libosw/sameaddr.c:93-114 | two subnets of a family are nested or have no address in common |
| Subnet.AddrcmpIsOrder | lib/libosw/sameaddr.c:26-44 | the comparison is a total order: antisymmetric, zero only for equal addresses, transitive |
| Subnet.AddrcmpIsLexical | lib/libosw/sameaddr.c:26-44 | negative exactly when, at the first byte where the two differ, the first is smaller, or it is a proper prefix of the second, or the bytes are the same and its family is lower; and likewise for zero and positive |
| SubnetText.Addrtot | lib/libosw/addrtot.c:62-114 | room needed and text cut to the room given, for every format; `<invalid>` for a family or format it does not know |
| ReverseText.Reverse4 | lib/libosw/addrtot.c:194-214 | the name in the buffer and its size with the NUL, or 0 for a wrong length |
| ReverseText.Reverse6 | lib/libosw/addrtot.c:220-244 | the same over half bytes |
| ReverseText.LabelsAreDotted | lib/libosw/addrtot.c:206-210 | the labels are the dotted form of the bytes backwards, and a dot |
| ReverseText.Reverse4Tells | lib/libosw/addrtot.c:194-214 | the dotted parser reads the address back from the name |
| ReverseText.Reverse6Tells | lib/libosw/addrtot.c:220-244 | so does every pair of labels, byte by byte from the last on |
| SubnetText.Subnettot | lib/libosw/subnettot.c:51-84 | the text of a subnet is address, slash and count, cut to the room given, and the room needed is returned; an unknown family is printed as `<invalid>` |
| AddressForms.FormatsDiffer | lib/libosw/addrtot.c:144-189 | format `Q` prints all eight groups; the default format is shorter if and only if two zero groups stand in a row |
| SubnetText.TtoaddrBase | lib/libosw/ttoaddr.c:43-91 | which of the numeric parsers a text goes to and which of their errors are final |
| SubnetText.Ttoaddr | lib/libosw/ttoaddr.c:427-461 | numeric forms first, the lookup of names only when none applies |
| AddressForms.HexForms | lib/libosw/ttoaddr.c:206-231 | `0x` and eight digits are the address in network order, `0h` and eight digits the one in the order of the machine |
| AddressForms.LookedUpExactly | lib/libosw/ttoaddr.c:427-461 | which texts are given to the name service, and with which preference; no other result depends on it |
| AddressForms.FamilyIsKept | lib/libosw/ttoaddr.c:43-91 | a numeric address is of the family asked for, or else of the one that its colons tell |
| SubnetText.Ttosubnet | lib/libosw/ttosubnet.c:27-120 | separators, mask as count or as address, port, default subnet: the result and every error |
| AddressForms.DottedMask | lib/libosw/ttosubnet.c:101-117 | a mask written as an address is read as k if and only if it is the mask of k bits, refused if it is none, and not permitted for IPv6 |
| AddressForms.MaskFormsAgree | lib/libosw/ttosubnet.c:73-119 | the subnet with its mask as an address is the subnet with its mask as a count |
| AddressForms.NoMaskIsRefused | lib/libosw/ttosubnet.c:107-115 | a subnet whose mask is an address that is no mask is refused |
| AddressForms.CountsAreExact | lib/libosw/ttosubnet.c:101-119 | a count gives the network of that length, and one that is too large is refused |
| AddressForms.PortIsKept | lib/libosw/ttosubnet.c:84-98 | a port behind the mask is kept, in its sixteen bits |
| AddressForms.DefaultIsEverything | lib/libosw/ttosubnet.c:68-71 | the default subnet is the zero address with no bits |
| AddressForms.NoSlashIsRefused | lib/libosw/ttosubnet.c:73-75 | a text without a slash is refused |
| SubnetText.AddressRoundTrip | lib/libosw/ttoaddr.c:427-461 | what is printed parses back to the address, with the family given or guessed, whatever the lookup of names does |
| SubnetText.SubnetRoundTrip | lib/libosw/ttosubnet.c:73-119 | for every address and count, parsing the printed subnet gives the address with its host bits cleared and the same count |
| SubnetText.NetworkRoundTrip | lib/libosw/ttosubnet.c:73-119 | the round trip is the identity on networks |
| SubnetText.PrintingParsedIsIdempotent | lib/libosw/subnettot.c:51-84 | parsing once more what was printed after parsing changes nothing |
| RplOptions.RplMsg.SearchSubopt | lib/libndmgmt/rplmsg.cpp:70-118 | one search returns the first of the options of its type that are left and leaves the rest; types with a set cursor, or not ambiguous, lose none of theirs |
| RplOptions.SearchIsLinear | lib/libndmgmt/rplmsg.cpp:60-118 | in any reachable state of the cursors a search returns the next option its cursor promises and keeps the invariant |
| RplOptions.CursorsAreLinear | lib/libndmgmt/rplmsg.cpp:60-118 | every interleaving of searches answers for a type as a plain scan does, if and only if the type is not both at offset 0 and again later |
| RplOptions.WrongRun | lib/libndmgmt/rplmsg.cpp:101-104 | otherwise any other type gives a run of searches with a wrong answer, from any state |
| RplOptions.FirstOptionSkipped | lib/libndmgmt/rplmsg.cpp:101-104 | a message of six bytes and two searches that skip its first option |
| RplOptions.OneTypeIsExact | lib/libndmgmt/rplmsg.cpp:60-118 | a message searched for one type only is always exact |
| RplOptionStream.ScanFindsWritten | lib/libndmgmt/rplmsg.cpp:87-116 | from any options as RFC 6550 writes them the plain scan finds those of a type, each in its place |
| DaoCodec.DaoBuilder.BuildTargetOpt | lib/libndmgmt/dao.cpp:91-108 | the target option holds the whole address, whatever mask is asked for |
| DaoCodec.AppendSuboption | lib/libndmgmt/dio.cpp:100-116 | type, length and data of the option, or -1 and nothing written when they do not fit; nothing else is written |
| DaoCodec.DaoBuilder.AppendOption | lib/libndmgmt/dio.cpp:118-124 | the same for the option that was prepared |
| DaoCodec.DaoBuilder.BuildDao | lib/libndmgmt/dao.cpp:117-193 | the sequence number moves on by one, and the buffer and the length are those of laying down each target in map order, whether it fits or not |
| DaoCodec.BuiltIsPacket | lib/libndmgmt/dao.cpp:151-193 | when the targets fit that is header, targets in order and padding |
| DaoCodec.AllTargetsExactly | lib/libndmgmt/dao.cpp:151-193 | the receiver of what was built gets all targets and no others if and only if they fit the buffer |
| DaoCodec.DaoBuilder.BuildDaoack | lib/libndmgmt/daoack.cpp:81-122 | the acknowledgement with its header, its sequence number and the DAGID |
| DaoCodec.Rpltarget | lib/libndmgmt/rplmsg.cpp:157-171 | the next target option, if it is long enough |
| DaoCodec.ReceiveTargets | lib/libndmgmt/dag.cpp:1060-1087 | the loop over targets collects exactly the targets of the plain scan |
| DaoCodec.PaddingHasNoOption | lib/libndmgmt/dao.cpp:188-192 | the padding is well formed and holds no option of any type |
| DaoCodec.DaoRoundTrip | lib/libndmgmt/dao.cpp:45-58 | reading what was built gives instance, sequence number modulo 256, DAGID and exactly the addresses, in order, each at length 128 |
| DioCodec.DioBuilder.BuildPrefixDioopt | lib/libndmgmt/dio.cpp:126-146 | the prefix option, with only those bytes of the prefix that its length covers |
| DioCodec.DioBuilder.BuildDio | lib/libndmgmt/dio.cpp:148-208 | the 64 bytes of the DIO with its prefix option, and the sequence number used up |
| DioCodec.OptionFields | lib/libndmgmt/dio.cpp:126-146 | type, length, flag and both lifetimes of the option |
| DioCodec.Destprefix | lib/libndmgmt/rplmsg.cpp:120-133 | the next prefix option, if it is long enough |
| DioCodec.ReceivePrefixes | lib/libndmgmt/dag.cpp:669-686 | the loop over prefixes collects exactly the prefixes of the plain scan |
| DioCodec.DioRoundTrip | lib/libndmgmt/dag.cpp:646-686 | the receiver of what was built reads each announced value in the width of its field, and one prefix, as far as its length covers it |
| DioCodec.PrefixArrivesExactly | lib/libndmgmt/dio.cpp:134-137 | the prefix arrives as it was if and only if it has only zeros behind these bytes |
| DagNetwork.DagNetwork.ReceiveDio | lib/libndmgmt/dag.cpp:920-974 | receiving a DIO changes the object as the function on its state says: filter, sequence update, rank comparison, adoption |
| DagNetwork.DagNetwork.PotentiallyLowerRank | lib/libndmgmt/dag.cpp:611-694 | rejects a higher rank, the same parent and a sequence already seen; adopts otherwise |
| DagNetwork.DagNetwork.ReceiveDao | lib/libndmgmt/dag.cpp:1030-1099 | every target is entered, a DAO upwards is scheduled when needed, and an acknowledgement is due when asked for |
| DagNetwork.DagNetwork.AddChildnode | lib/libndmgmt/dag.cpp:451-468 | the first announcer of a prefix gets its route |
| DagNetwork.DagNetwork.SendDao | lib/libndmgmt/dag.cpp:700-737 | a DAO goes to the best parent with the next number, and to nobody when there is none |
| DagNetwork.DagNetwork.ReceiveDaoack | lib/libndmgmt/dag.cpp:1101-1125 | commits exactly on an answer of the best parent to the current number |
| DagNetwork.DagNetwork.CommitParent | lib/libndmgmt/dag.cpp:1127-1168 | the committed parent becomes the best parent; when that is another one, a route to the prefix leads to it, and a default route if the DAG is grounded, and DIOs are scheduled |
| DagNetwork.DagNetwork.BuildDio | lib/libndmgmt/dio.cpp:169-190 | the values that a DIO announces, cut to the width of their fields, and the number used up; the bytes are those of DioCodec |
| RplProgress.AdoptsExactly | lib/libndmgmt/dag.cpp:611-662 | a node has the sender of a DIO as best parent afterwards if and only if it had, or the DIO is let through, the node is active, the sender neither itself nor one of its parents, the rank not higher and the number new |
| RplProgress.TakesOver | lib/libndmgmt/dag.cpp:646-662 | then it has the rank, number and values of the DIO, and its parent, routes and tables as before |
| RplProgress.OthersChangeNothing | lib/libndmgmt/dag.cpp:623-644 | a DIO that is not taken changes the sequence filter only |
| RplProgress.JoinsAtOnce | lib/libndmgmt/dag.cpp:611-662 | a node that heard nothing yet joins on the first DIO |
| RplProgress.AdoptionSchedules | lib/libndmgmt/dag.cpp:669-693 | what the prefixes make it announce, namely its own address in each, and exactly when a DAO and a DIO are scheduled |
| RplProgress.SendDaoExactly | lib/libndmgmt/dag.cpp:440-449 | a DAO is scheduled exactly when one is needed, there is a best parent and the node is not the root |
| RplProgress.DaoEffect | lib/libndmgmt/dag.cpp:1030-1099 | a DAO that is heard enters each new target with a route to its sender and no other, and goes on upwards if there was one; any other DAO changes nothing |
| RplProgress.AnsweredExactly | lib/libndmgmt/dag.cpp:1091-1095 | a DAO is acknowledged if and only if it is heard and asks for it |
| RplProgress.CommitEffect | lib/libndmgmt/dag.cpp:1127-1168 | a commitment to another parent adds exactly the route to the prefix and, if the DAG is grounded, the default route; a DIO is scheduled if the neighbour is another |
| RplProgress.SendingEffect | lib/libndmgmt/dao.cpp:142 | a DIO and a DAO use up one number each |
| RplProgress.TargetsExactly | lib/libndmgmt/dao.cpp:151-183 | what a node tells its parent about: the addresses of its children and its own |
| SequenceRuns.TooOldIsHalfCircle | lib/libndmgmt/dag.cpp:385-415 | a number is too old exactly when it is more than 128 ahead on the circle of 256 |
| SequenceRuns.UpdateIsNext | lib/libndmgmt/dag.cpp:417-426 | the update moves to the least larger number with the same low eight bits, in 32 bits |
| SequenceRuns.DroppedExactly | lib/libndmgmt/dag.cpp:933-955 | when the filter of a DIO drops it: too old, not 0, and not the first |
| SequenceRuns.FilterEffect | lib/libndmgmt/dag.cpp:920-974 | what a DIO records in the filter, whatever else it does |
| SequenceRuns.TracksSender | lib/libndmgmt/dag.cpp:385-426 | over any run in which the sender's counter advances by 1 to 128 between arrivals every DIO is let through and the node's number stays a constant ahead of the counter |
| SequenceRuns.ReplayFilter | lib/libndmgmt/dag.cpp:938-944 | in a run of any length a replay is dropped if and only if it is 1 to 127 behind, its number is not 0 and the count of DIOs has not just wrapped to 0 |
| RplNetwork.StepKeepsRanks | lib/libndmgmt/dag.cpp:611-662 | every step of every node keeps the rank invariant, and no rank rises |
| RplNetwork.RunKeepsRanks | lib/libndmgmt/dag.cpp:611-662 | it holds in every state of every run with fewer than 65536 nodes, whatever targets their DAOs name |
| RplNetwork.RanksNeverRise | lib/libndmgmt/dag.cpp:623-653 | a node's rank never rises over a run |
| RplNetwork.LoopFree | lib/libndmgmt/dag.cpp:661-662 | no path of best parents comes back to where it began, in any state of any run |
| RplNetwork.EveryoneReachesTheRoot | lib/libndmgmt/dag.cpp:661-662 | the best parents of a joined node lead to the root, in no more steps than its rank, which is at most the number of joined nodes |
| RplNetwork.NotTruncated | lib/libndmgmt/dio.cpp:183 | cutting the rank to 16 bits in a DIO never changes it |
| RplAgreement.ProcessedDao | lib/libndmgmt/dag.cpp:1060-1095 | a DAO that is acknowledged leaves a route for each of its targets; no entry changes and no route goes |
| RplAgreement.DuplicateDao | lib/libndmgmt/dag.cpp:460-469 | the same DAO again, from the same child or another, adds no route and changes no announcer |
| RplAgreement.StepKeepsAgreement | lib/libndmgmt/dag.cpp:1101-1140 | every step keeps the agreement between counters, messages and tables |
| RplAgreement.AcceptedAckAgrees | lib/libndmgmt/dag.cpp:1108-1124 | an accepted acknowledgement answers the node's latest DAO |
| RplAgreement.CommitMeansAgreement | lib/libndmgmt/dag.cpp:1115-1140 | in any run with fewer than 65535 DAOs of a node, whenever it commits, the parent has processed its latest DAO and has, from then on for ever, a route for every target in it |
| RplAgreement.CommitCoversTables | lib/libndmgmt/dao.cpp:151-183 | so, if the DAO named all that its sender had in its tables when it sent it, the parent has a route for each of these |
| RplAgreement.NoCommitPast255 | lib/libndmgmt/dag.cpp:1116 | from number 256 on no acknowledgement is accepted |
| RplAgreement.CommitsExactly | lib/libndmgmt/dag.cpp:1108-1124 | an answer to the latest DAO from the best parent makes the node commit if and only if its number is at most 255 |
| RplAgreement.CommitsByNumber | lib/libndmgmt/dag.cpp:1108-1124 | any answer from the best parent does so if and only if the eight bits of the number it answers equal all sixteen of the counter |
| RplReach.RoutesWereAnnounced | lib/libndmgmt/dag.cpp:451-468 | in every state of every run a node has a route only for a prefix that a DAO to it named, and only to the sender of that DAO |
| RplReach.UpwardExactly | lib/libndmgmt/dag.cpp:1127-1168 | in every state of every run a node has a route upwards if and only if it has committed to another parent on that link, for the prefix of that time or, for the default route, in a DAG grounded at that time |
| RplReach.NothingIsForgotten | lib/libndmgmt/dag.cpp:440-449 | in every state of every run no node with a best parent has a DAO needed that is not scheduled |
| RplReach.Handshake | lib/libndmgmt/dag.cpp:1030-1125 | a DAO, its arrival and the arrival of the answer: the parent has a route for each target, and the node has committed if and only if the number of its DAOs is at most 255 |
| RplReach.FreshMayStart | lib/libndmgmt/dag.cpp:67-84 | a node as it is made may take part in what follows |
| RplReach.TreeForms | lib/libndmgmt/dag.cpp:611-694 | every tree of active nodes that have heard nothing can form: there is a run after which each has joined below its parent, one rank lower in the tree, and committed to it, and the parent has routes for the addresses it configured |
| DagRuns.LearntAnew | lib/libndmgmt/dag.cpp:493-561 | an announcement is taken as new if and only if its prefix is not installed, installs nothing, and makes a DAO due unless announcements are ignored |
| DagRuns.CommitLeadsUp | lib/libndmgmt/dag.cpp:1127-1168 | after a commitment the newest route upwards leads to the committed parent |
| DagRuns.HistoryOverRuns | include/prefix.h:67-69 | in every state of every run the installed prefixes of a node are those that it started with, and the newest route upwards leads to the committed parent |
| DagRuns.NewThroughoutRuns | lib/libndmgmt/dag.cpp:537-552 | in every state of every run an announcement is taken as new if and only if its prefix was not installed at the start |
| RplWire.DioArrives | lib/libndmgmt/dio.cpp:148-208 | the DIO that the network delivers is what the receiver reads from the bytes of its sender |
| RplWire.DaoArrives | lib/libndmgmt/dao.cpp:117-209 | so is the DAO, if its targets fit: its targets, its number and its wish for an answer |
| RplWire.TablesArrive | lib/libndmgmt/dao.cpp:151-183 | with at most 101 targets the receiver gets all of the sender's tables and nothing else |
| RplWire.FirstTargetsArrive | lib/libndmgmt/dao.cpp:151-192 | with 102 to 104 targets it gets the first 101 |
| RplWire.ReadableExactly | lib/libndmgmt/dao.cpp:151-192 | with up to 117 targets it can read the DAO within its bounds if and only if they are at most 104 |
| RplWire.LastTargetOverwrites | lib/libndmgmt/dao.cpp:151-183 | the 118th target is laid over the 101st: the DAO is that of 101 targets with a garbled last one, if the last address ends in four zeros |
| RplWire.AckArrives | lib/libndmgmt/daoack.cpp:36-122 | and the number of a DAO-ACK |
| RplWire.RoomForTargets | lib/libndmgmt/dao.cpp:196-205 | 101 targets fit the buffer of send_dao, and no more |
| RplWire.HeardExactly | lib/libndmgmt/dag.cpp:238-247 | a node finds its DAG for the DIO of another of the same instance if and only if the instance is at most 255 |
| RplWire.StepRefines | lib/libndmgmt/iface.cpp:579-595 | a step on bytes is a step of the network on what they mean, or changes nothing; a DAO means the targets that its receiver reads |
| RplWire.RunRefines | lib/libndmgmt/iface.cpp:579-595 | every state of every run on bytes is, by its meaning, the last of a run of the network from the same start |
| RplWire.WireLoopFree | lib/libndmgmt/dag.cpp:661-662 | best parents are free of loops when only bytes go between the nodes |
| RplWire.WireReachesTheRoot | lib/libndmgmt/dag.cpp:661-662 | and lead every joined node to the root |
| RplWire.WireCommitMeansAgreement | lib/libndmgmt/dag.cpp:1101-1140 | when a node accepts the bytes of a DAO-ACK it commits to its best parent; they answer its latest DAO, and the parent has, from then on for ever, the same route for every target that it read |
| RplWire.WireDio | lib/libndmgmt/iface.cpp:579-585 | the bytes of a DIO do to a node of the same instance what the DIO does |
| RplWire.WireHandshake | lib/libndmgmt/iface.cpp:579-595 | the handshake in bytes: up to 101 targets are routed, and the node commits up to number 255 and no further |
| EventTime.SetAlarmTime | include/event.h:114-131 | the carry loop computes the alarm time |
| EventTime.AlarmTotal | include/event.h:114-131 | the alarm is later by the interval, as computed in 32 bits, and its microseconds are at most a million |
| EventTime.AlarmIsExact | include/event.h:122-127 | the interval set is the one asked for if and only if it is at most 4294967 ms |
| EventTime.AlarmReachesMillion | include/event.h:124-127 | an alarm whose microseconds are exactly a million |
| EventTime.AlarmIsClockTime | include/event.h:124-127 | the microseconds of an alarm are below a million unless their sum before the carry is a multiple of it other than zero, and only then |
| EventTime.PassedIsExact | include/event.h:84-94 | an event has passed exactly when its time in microseconds has |
| EventTime.EventlessIsNotEarlier | lib/libndmgmt/event.cpp:57-74 | the comparison of the queue, by differences cut to int, is "not earlier" for times within 2^31 seconds |
| EventTime.OrderAgreesWithTime | lib/libndmgmt/event.cpp:57-74 | the order by fields is the order of time, but for ties at a full second |
| EventTime.OccursInIsExact | lib/libndmgmt/event.cpp:156-169 | the time left, with its borrow, is exact |
| EventTime.MilisecondsAreClose | lib/libndmgmt/event.cpp:171-179 | for a future event less than 2^31 ms away the wait is not negative and within a millisecond of the truth |
| EventTime.MilisecondsExactly | lib/libndmgmt/event.cpp:171-179 | it is the time left in whole milliseconds, rounded up if microseconds had to be borrowed and down otherwise |
| EventQueue.RplEventQueue.PeekEvent | include/event.h:190-192 | no queued event is earlier than the one on top |
| EventQueue.RplEventQueue.AddEvent | include/event.h:212-216 | the event is queued once, in its place, and its flag says so |
| EventQueue.RplEventQueue.Update | include/event.h:194-196 | an event whose time has changed is put in its place; the members stay |
| EventQueue.RplEventQueue.Requeue | lib/libndmgmt/event.cpp:101-108 | an event is in the queue afterwards, once, whether it was before or not |
| EventQueue.RplEventQueue.Reschedule | lib/libndmgmt/dag.cpp:757-815 | a new alarm for an event that may be queued keeps the queue in order |
| EventQueue.RplEventQueue.NextEvent | include/event.h:204-210 | the earliest event leaves the queue and its flag is reset |
| EventQueue.RplEventQueue.Clear | lib/libndmgmt/event.cpp:209-218 | no event is queued and every flag says so |
| EventQueue.RplEventQueue.RunTop | lib/libndmgmt/iface.cpp:1104-1111 | the first event runs and is queued again for its next time, or is deleted |
| EventQueue.RplEventQueue.ForceNextEvent | lib/libndmgmt/iface.cpp:1016-1034 | the first event runs whether due or not, and the others stay as they are |
| EventQueue.RplEventQueue.Drain | lib/libndmgmt/iface.cpp:1101-1120 | unless a due event that succeeds has no interval, the loop ends; exactly the due events ran, each once and in order; those that succeed are queued once for their next time, the others are gone, all else is unchanged; nothing left is due, and the timeout is at most 60 seconds, never a millisecond past the next event and, for one within 2^31 ms, not a millisecond before it or before the 60 seconds |
| EventQueue.DueAgainExactly | include/event.h:114-131 | an event that has run is due again at once if and only if its interval is zero in 32 bits: zero seconds and a multiple of 2^29 ms |
| EventQueue.RplEventQueue.DrainTurns | lib/libndmgmt/iface.cpp:1101-1120 | with an event queued that is due, succeeds and has no interval, the event on top is due after any number of turns of the loop |
| EventQueue.DueAreFirst | lib/libndmgmt/iface.cpp:1112-1119 | in a queue in order the due events are in front, so the first that is not due ends the loop |
| MacTable.HashTable.FindEntry | testing/utils/uml_netjig/hash.c:33-43 | the walk along a chain finds the entry of an address, or none when it has none |
| MacTable.HashTable.FindInHash | testing/utils/uml_netjig/hash.c:45-51 | lookup is the lookup of a map from addresses to ports |
| MacTable.HashTable.InsertIntoHash | testing/utils/uml_netjig/hash.c:53-75 | adds the address to the map when it is not there and changes nothing when it is; the chains stay linked both ways and free of duplicates |
| MacTable.HashTable.Link | testing/utils/uml_netjig/hash.c:68-74 | a new head of a chain, the other chains as they were |
| MacTable.HashTable.Unlink | testing/utils/uml_netjig/hash.c:87-96 | one entry out of its chain, the other chains as they were |
| MacTable.HashTable.DeleteHash | testing/utils/uml_netjig/hash.c:98-105 | removes the address from the map and nothing else |
| MacTable.HashTable.UpdateEntryTime | testing/utils/uml_netjig/hash.c:77-85 | sets the time of that address only |
| MacTable.HashTable.SweepBucket | testing/utils/uml_netjig/hash.c:107-122 | one chain swept while entries leave it: exactly its expired entries go |
| MacTable.HashTable.HashPeriodic | testing/utils/uml_netjig/hash.c:149-163 | the table keeps exactly the entries seen within the last 100 seconds |
| MacTable.HashTable.UpdateSrc | testing/utils/uml_netjig/port.c:79-118 | after a frame its sender's address leads to the port it came in on, seen now, and no other address changes |
| MacTable.GroupBit | testing/utils/uml_netjig/port.c:50 | an address is taken for a group by the lowest bit of its first byte |
| Checksum.CsumPartial | lib/libndmgmt/iface.cpp:1219-1232 | the loop over words in 32 bits with its two folds, odd lengths included |
| Checksum.TwoFolds | lib/libndmgmt/iface.cpp:1229-1231 | two folds reduce any sum of 32 bits to its residue |
| Checksum.CsumExactly | lib/libndmgmt/iface.cpp:1219-1232 | the result is the residue of the whole sum if and only if no carry left the 32 bits |
| Checksum.CsumChains | lib/libndmgmt/iface.cpp:1219-1232 | summing on over a second block is summing the two blocks at once |
| Checksum.CsumIpv6Magic | lib/libndmgmt/iface.cpp:1234-1262 | the sum over the pseudo-header built on the stack |
| Checksum.OnesSumIsTurned | lib/libndmgmt/iface.cpp:1219-1232 | summing words in the machine's order instead of the network's turns the sum by eight bits and no more |
| Checksum.ReceiverSums | lib/libndmgmt/iface.cpp:1234-1262 | the receiver sums both addresses, the length in 32 bits, the next header 58 and the message |
| Checksum.HeaderFields | lib/libfakeiface/pcap_iface.cpp:95-137 | version, payload length, next header, hop limit and addresses of the IPv6 header |
| Checksum.AcceptedExactly | lib/libfakeiface/pcap_iface.cpp:139-153 | a receiver's one's complement sum in network order is 0xFFFF for the checksum that is stored and, up to the two forms of zero, for no other |
| Checksum.SendRawIcmp | lib/libfakeiface/pcap_iface.cpp:95-163 | the packet holds both headers and the message with its checksum, and passes the receiver's check |
| Netlink.NlMessage.AddattrL | lib/libnetlink/libnetlink.c:498-514 | the attribute is appended to the innermost open group, or there is no room and nothing changes |
| Netlink.NlMessage.Addattr32 | lib/libnetlink/libnetlink.c:482-496 | the same for four bytes |
| Netlink.NlMessage.AddattrNest | lib/libnetlink/libnetlink.c:592-598 | opens a nest when there is room, and returns the tail in any case |
| Netlink.NlMessage.AddattrNestEnd | lib/libnetlink/libnetlink.c:600-604 | the nest becomes one attribute of the group around it, whose payload is exactly the inner attributes; for a nest that had no room, only a length of 0 is written behind the tail |
| Netlink.ParseRtattr | lib/libnetlink/libnetlink.c:564-575 | on any bytes, the table holds for each type the last attribute come across, and the deficit is what is left |
| Netlink.EncodedWalk | lib/libnetlink/libnetlink.c:564-575 | attributes that were written are come across in order, and nothing is left |
| Netlink.CollectsLast | lib/libnetlink/libnetlink.c:564-575 | each type's entry has type and payload of the last attribute of that type that was written |
| Netlink.MessageParses | lib/libnetlink/libnetlink.c:498-604 | parsing a message built by any sequence of these calls, nests of any depth closed, finds what was put in |

## Left out

- Sockets, poll, pcap files, syslog, `ip` commands, option parsing and all output for humans. Installing a route is adding it to a list; what a sent message would be is modelled, the sending is not.
- The lookup of host names: a parameter of the address parser, any function.
- `rangetot`: it would only add easy members.
- The machine: little-endian, with `long` of 64 bits. `tryhex` and the checksum depend on the byte order.
- The binomial heap: a sequence kept in order stands for it, and the order of events due at the same time is left open by all contracts that speak of the queue as a set. `rpl_eventless` returns true for equal times.
- Fake time in `set_alarm`, the event's reasons and counters, and what `doit` sends. Events that `doit` would schedule while the drain loop runs are not part of this model.
- EventQueue.RplEventQueue.Drain: requires alarm times below 2^31 seconds, as the comparison of the queue needs, and that no event which is due and succeeds has an interval of zero in 32 bits, without which the loop does not end.
- Subnet.Initsubnet: counts are not negative; for a negative one the code shifts by a negative amount.
- SubnetText.Addrtot: the text `<invalid>` is written past a buffer that has no room for it and its NUL behind `dstlen` characters; that such a buffer has this room is required.
- SubnetText.Subnettot: the same room is required for an address of an unknown family.
- RplOptions.RplMsg.SearchSubopt: for messages in which no option goes past the end. At one that does, the loop compares a negative rest as an unsigned number and reads on behind the message; what it finds there is not part of this model.
- DaoCodec.Rpltarget: the target options that are left have their prefix length inside the message; where the message ends before, the code reads what is behind it.
- DaoCodec.ReceiveTargets: the same, and prefix lengths are at most 128; for longer ones the code copies more than an address holds.
- DioCodec.ReceivePrefixes: the same for the prefixes of a DIO.
- DioCodec.DioBuilder.BuildDio: for buffers of at least 64 bytes and prefixes of at most 128 bits. It writes its 64 bytes whatever room it is given; its caller gives it 2048.
- DaoCodec.DaoBuilder.BuildDao: for buffers with room for the header, as its caller's is.
- DaoCodec.AllTargetsExactly: for buffers of a multiple of eight bytes, as send_dao's is; for others the rounded length may exceed the buffer.
- `prefix_less` is not an order; prefix maps are plain maps, and the order of targets in a DAO is any order of their elements.
- A node's own addresses other than the one it is known by, the state of neighbours (`markvalid`), the source address of routes and identifiers of devices. Statistics counters other than the number of DIOs.
- More than one DAG in a node, and watchers, which make a DAG for what they hear.
- RplWire.RunRefines: a DAO of so many targets that its receiver would read past its end is sent, and delivered to nobody; what the receiver would find there is not part of this model.
- RplWire.ReadableExactly: beyond 117 targets it depends on the addresses whether the DAO can be read.
- RplNetwork.LoopFree: speaks of best parents. The committed parent may lag behind, and no such claim holds for it.
- RplAgreement.CommitMeansAgreement: safety only. No acknowledgement is promised to arrive, and past number 255 none is accepted.
- RplReach.TreeForms: such a run exists; that the nodes join in a given run is not promised, as any message may be lost.
- A node that restarts, changes its root or moves to another version of the DAG.
- MacTable.HashTable.InsertIntoHash: ports are not null, as all callers have it; with a null port the test for presence fails and an address would be entered twice. Entries of ports that were freed are not part of this model.
- Checksum.AcceptedExactly: for messages up to 65535 bytes, the most that the payload length of an IPv6 header can say.
- Netlink.NlMessage.AddattrNestEnd: for a nest that had no room, with two bytes left behind the tail, and nothing appended since.
- DagNetwork.DagNetwork.BuildDio: states the values only; the bytes and the option are those of DioCodec.DioBuilder.BuildDio, and RplWire.DioArrives connects the two.
- DioCodec.Destprefix: the prefix options that are left are inside the message, with lengths of at most 128.
- Netlink.NlMessage.AddattrL: for attributes of less than 65536 bytes, the most that their length field can say. The length of the message is a field of the object and not the first word of the buffer.
- `rta_addattr32`, `rta_addattr_l`, `addraw_l` and `parse_rtattr_byindex`: they repeat what is here.
- RFC 8994 texts, EUI identifiers, name tables and DIS messages.
