# Verified models of the NetBird client

This project models six parts of the NetBird client written in Go and proves what they promise. Each part is a state
machine or a transformation whose correctness depends on details that are easy to get wrong and hard to test.

- **WireGuard configuration text** (`Text`, `Encodings`, `TextForms`, `Bits`, `Net`, `AddressForms`, `Wg`, `UapiText`,
  `Printer`, `Status`, `UnreadableLines`, `PrintParse`, `Device`, `Dump`, `WireText`, `WireReading`, `Removal`,
  `ScannerAgreement`, `ScannerLimits`). The userspace configurer prints configurations as lines of text and reads device
  dumps with three independent scanners. Text is modelled as character sequences. Printing and reading are proved
  inverse, the scanners are proved to read what the blocks of a dump say and so to agree, and a device that reads the
  printed text is proved to do what the configuration says. The texts themselves are spelled out: names, digits,
  addresses and numbers.
- **The two configurers** (`DeviceLaws`, `Operations`, `OperationLaws`, `Configurers`). The userspace form works through
  text, the kernel form directly. Both are proved against one description of their effect on the device, and the inputs
  on which they differ are characterised.
- **Network-map reconciliation** (`Bags`, `NetIPLists`, `Checks`, `Engine`, `Reconciliation`). Updates become removals,
  modifications and additions of peer connections under a serial guard.
- **The route manager** (`RouteManager`). Active handlers and running watchers are kept in agreement while routes come,
  go and fail.
- **Signal delivery** (`SignalDelivery`, `StreamHandshake`). A receiver, a channel with one slot and a worker, as steps
  that interleave freely, and the channel on which callers wait for a connection.
- **Policy routing** (`PolicyRouting`, `SystemOps`). Rules and tables of the kernel, changed by calls that may fail.

## How the code is modelled

Code that changes state step by step is a class or a loop whose contract ties the result to a function of the input; the
laws are lemmas about those functions. Failures of the environment (device calls that fail, refused system calls,
connections that cannot be made, cancelled contexts) are parameters of the methods and steps that meet them, and the
theorems hold for all their values; a theorem that needs some call to work names it as a condition. Hiding definitions
(`hide`) keeps proofs small and has no effect on what is proved.

Some facts about the code that the proofs brought out:

- Text of a configuration with a removed peer is only accepted when that peer is last and nothing follows its removal
  flag, because the flag is written without a newline (`Device.PrintedConfigApplies`). All callers keep to that. A
  device keeps the effect of the lines before the one it rejects.
- The update-only flag is never printed, so the userspace AddAllowedIP creates a missing peer
  (`Operations.AddAllowedIPAgrees`).
- RemoveEndpointAddress keeps the allowed prefixes but resets the preshared key, keep-alive and counters in both
  configurers. It removes the peer first, so when adding it again fails the peer stays removed
  (`Operations.RemoveEndpointEnds`).
- The kernel RemoveAllowedIP finds a peer by the text of its key, the userspace one by its bytes, so they differ for keys
  written in a non-standard way, and in the error for an absent prefix (`Operations.RemoveAllowedIPAgrees`). For an
  IPv4-mapped prefix the kernel form removes the IPv4 prefix, which prints alike; the userspace form finds none
  (`Operations.RemoveAllowedIPStatesAgree`).
- An unreadable key line makes parseStatus list the peer before it again (`UnreadableLines.UnreadableKeyRepeats`).
- parseStatus trims the whole dump, parseTransfers every line (`ScannerLimits.PaddedDumpDisagrees`). Dumps of devices
  have no padded lines.
- Any check of several file names compares equal to a check of one name, its joined text, as does the check of no names
  (`Checks.JoinedTextConfused`). Only a check of one name that is not empty and has no bar between ordered parts is
  never confused with another (`Checks.ToldApartExactly`).
- When an update lists a key twice with different data, applying it again changes the peer again
  (`Reconciliation.AppliedAgain`).
- New checks are remembered before the server is told, so a failed notification is not repeated
  (`Engine.Engine.UpdateChecksIfNew`).
- The unreachable IPv6 route of a failed addition of the IPv4 default route stays, and an existing route is an error, so
  every later addition fails until a removal clears it away (`SystemOps.SysOps.RetryAfterFailure`).
- A removal of the IPv4 default route that is refused after its IPv6 companion was removed leaves the default route
  without it (`SystemOps.SysOps.ApplyReceived`).
- AddVPNRoute compares the prefix as it is written. The network of every route from the management service
  is masked before (go/internal/engine.go:1159, go/internal/routemanager/manager.go:178), so an IPv4 prefix of length
  zero with a non-zero address, which would go in without the companion, does not arise from a network map
  (`SystemOps.MaskedDefault`).
- Close takes the worker away while a stream may still be open, and the receiving loop panics on the next message unless
  it connected again in between, and only then (`SignalDelivery.PanicsExactly`).
- An entry of a map without allowed networks makes the engine panic when its connection can be made
  (`Engine.Engine.UpdateNetworkMap`).
- A waiter whose status check precedes a connect notification and whose registration follows it waits for the next one
  (`StreamHandshake.LateWaiterWaits`).

## Model

| member | source | states |
|---|---|---|
| Text.SplitUndoesJoin | go/internal/engine.go:2018 | Splitting a joined list gives the list back as long as no piece holds the separator; with a bar this is what makes the joined text of a check determine its files. |
| Text.CutLine | go/iface/configurer/usp.go:505-510 | The first `=` of a line ends the key, whatever the value holds, and nothing is lost by cutting there. |
| Encodings.HexRoundTrip | go/iface/configurer/usp.go:422-427 | Decoding hexadecimal undoes encoding, for byte strings of any length; only lower-case digits are written, two for each byte. |
| Encodings.Base64RoundTrip | go/iface/configurer/usp.go:359 | Decoding standard base64 undoes encoding for every byte string. |
| Encodings.Base64Injective | go/iface/configurer/usp.go:359 | Different byte strings have different base64 texts, so peers cannot be confused by their text. |
| Encodings.IntRoundTrip | go/iface/configurer/usp.go:453-470 | Every 64-bit integer is read back from its decimal text. |
| Wg.KeyTextRoundTrip | go/iface/configurer/usp.go:479-496 | A 32-byte key is recovered from its base64 text and from its hexadecimal text. |
| TextForms.SpacesAre | go/iface/configurer/usp.go:349 | The characters that trimming takes away, one by one. |
| TextForms.TrimExactly | go/iface/configurer/usp.go:501 | Trimming takes white space away from both ends of a text, all of it and nothing else. |
| TextForms.TrimBracketsExactly | go/iface/configurer/usp.go:546 | The same for the brackets around an endpoint. |
| TextForms.HexWritten | go/iface/configurer/usp.go:422-427 | Each byte is written as two digits of 0123456789abcdef, the upper half first. |
| TextForms.HexRead | go/iface/configurer/usp.go:479-483 | Hexadecimal is read exactly from an even number of digits, two of them giving a byte. |
| TextForms.Base64Written | go/iface/configurer/usp.go:359 | Three bytes are written as the four digits of their 24-bit number in the alphabet of RFC 4648, before the rest. |
| TextForms.Base64WrittenEnd | go/iface/configurer/usp.go:359 | One or two bytes at the end are written as two or three digits and padded to four. |
| TextForms.Base64Accepts | go/iface/configurer/usp.go:76 | Base64 is read exactly from groups of four digits of which the last may end in one or two equals signs. |
| TextForms.Base64Read | go/iface/configurer/usp.go:76 | A group gives the three bytes of its number; the unused bits of a padded one are ignored. |
| TextForms.BreaksDropped | go/iface/configurer/usp.go:76 | Line breaks anywhere in base64 are dropped, and nothing else is. |
| TextForms.NaturalRead | go/iface/configurer/usp.go:453-470 | A natural number is read exactly from digits, by their places. |
| TextForms.NaturalWritten | go/iface/configurer/usp.go:411-419 | Its text is the one run of digits without a leading zero that stands for it. |
| TextForms.IntegerRead | go/iface/configurer/usp.go:468-470 | An integer is read exactly from digits after an optional sign when it fits 64 bits. |
| TextForms.IntegerWritten | go/iface/configurer/usp.go:411-419 | An integer is written with a minus sign when it is negative and without a sign otherwise. |
| TextForms.SecondsWritten | go/iface/configurer/usp.go:446-448 | A keep-alive interval is written in whole seconds of 1000000000 nanoseconds, truncated toward zero. |
| TextForms.HandshakeRead | go/iface/configurer/usp.go:453-466 | Zero seconds stand for no handshake, every other number for a time. |
| Net.PrefixRoundTrip | go/iface/configurer/usp.go:439 | The CIDR text of a prefix is read back as the prefix itself by the device, and as the prefix without host bits by the scanners. |
| Net.EndpointRoundTrip | go/iface/configurer/usp.go:443 | The device reads back every endpoint it is handed as text, with IPv4-mapped addresses as IPv4. |
| Net.StatusEndpointOnlyV4 | go/iface/configurer/usp.go:546-559 | A status recovers the text of an endpoint exactly when it is IPv4; a bracketed IPv6 endpoint is never read. |
| Net.LawfulCodecExists | go/iface/configurer/usp.go:439 | There is a text form of IPv6 addresses with the properties that the theorems ask of it. |
| AddressForms.V4Exactly | go/internal/engine.go:1287 | An IPv4 address is read from its dotted decimal text and from no other. |
| AddressForms.PrefixExactly | go/internal/engine.go:1287 | A prefix is read exactly from an address, a slash and its length without a leading zero. |
| AddressForms.NetworkExactly | go/iface/configurer/usp.go:564 | A network is read exactly from an address, a slash and a length that fits, and loses its host bits. |
| AddressForms.EndpointWritten | go/iface/configurer/usp.go:443 | The text of an endpoint: the unmapped address, in brackets when it is IPv6, a colon and the port. |
| AddressForms.EndpointExactly | go/iface/configurer/usp.go:442-444 | The texts that a device reads as endpoints, and what they name. |
| AddressForms.StatusEndpointExactly | go/iface/configurer/usp.go:546-559 | The texts that a status reads as endpoints, and what it keeps of them. |
| AddressForms.UnmappedBytes | go/iface/configurer/usp.go:439-443 | An IPv4-mapped address is ten zeros, two bytes of ones and the four bytes that are kept. |
| AddressForms.UnmappedLength | go/iface/configurer/usp.go:439 | An IPv4-mapped network is printed with its length less 96, but at least zero; every other network is printed as it is. |
| AddressForms.UnmappedNetwork | go/iface/configurer/usp.go:439 | An IPv4-mapped network holds the same addresses as the IPv4 network that is printed for it. |
| Bits.MaskByteBits | go/iface/configurer/usp.go:564 | Masking a byte keeps its first bits and clears the others. |
| Bits.MaskedBits | go/internal/routemanager/systemops/systemops_linux.go:650-654 | The network of a prefix is the one with the same length and first bits and no other bits. |
| UapiText.EntryByPrefix | go/iface/configurer/usp.go:353-354 | Testing a line for a `key=` prefix finds exactly the assignments to that key, and what follows the prefix is the value. |
| UapiText.TrimKeepsEntries | go/iface/configurer/usp.go:501 | Trimming a whole dump loses no assignment when its lines have no surrounding white space. |
| WireText.LineNames | go/iface/configurer/usp.go:25-37 | Every line that is written or read, with its name in full. |
| WireReading.OtherNames | go/iface/configurer/usp.go:513-604 | A line with any other name is not known. |
| Printer.ToWgUserspaceString | go/iface/configurer/usp.go:402-451 | Builds exactly the text of a configuration, line by line, with the removal flag written without a newline. |
| WireText.ConfigWritten | go/iface/configurer/usp.go:402-451 | The text of a configuration, every line with its name and value written out. |
| PrintParse.PrintedConfigReadsBack | go/iface/configurer/usp.go:402-451 | Printing a configuration without removed peers and reading it with parseStatus gives back the port, the mark and, in order, every key, allowed list and IPv4 endpoint, with the preshared flag set exactly for a non-zero key. |
| OperationLaws.RepresentableExactly | go/iface/configurer/usp.go:402-451 | The configurations it is about, spelled out: numbers of 64 bits and ports of 16 bits. |
| PrintParse.MaskedPrefixesReadBack | go/iface/configurer/usp.go:560-567 | Masked prefixes come back unchanged. |
| PrintParse.PresharedText | go/iface/configurer/usp.go:597-603 | The text of a preshared key counts as one exactly when the key is not all zeros. |
| WireReading.PresharedRead | go/iface/configurer/usp.go:597-603 | A preshared key counts exactly unless its value is empty or sixty-four zeros. |
| Status.ParseStatus | go/iface/configurer/usp.go:498-610 | The loop computes, for any text, the left-to-right reading of the assignments of its lines. |
| Status.StatusReadsBlocks | go/iface/configurer/usp.go:520-532 | On a dump with valid keys the status lists exactly one peer for each block, in order, each with the last readable value of its fields and all readable networks. |
| Status.ScanDeviceFields | go/iface/configurer/usp.go:513-540 | Port, mark and private key of a status are the last readable ones of the whole dump. |
| Status.ParseTransfers | go/iface/configurer/usp.go:340-400 | The loop computes, for any text, the map or the first error of the left-to-right reading of its trimmed lines. |
| Status.TransfersSucceedExactly | go/iface/configurer/usp.go:353-396 | parseTransfers succeeds exactly when every key is hexadecimal and every counter that belongs to a peer is a number. |
| ScannerAgreement.ScannersAgree | go/iface/configurer/usp.go:340-610 | parseTransfers has exactly the keys of the peers that parseStatus lists, and the entry of a key has the counters of the last peer with that key, on every text whose lines that assign a key or a counter have no surrounding white space. |
| ScannerAgreement.ScannersAgreeOnDistinctKeys | go/iface/configurer/usp.go:340-610 | With distinct keys there are as many entries as peers, and every entry has the handshake, sent and received counts of its peer. |
| ScannerAgreement.TransfersSucceedOnText | go/iface/configurer/usp.go:347-396 | On such a text parseTransfers succeeds exactly when the untrimmed lines hold readable keys and counters. |
| ScannerAgreement.TransfersAreCountedPeers | go/iface/configurer/usp.go:340-610 | The map of parseTransfers is the one that counting the peers of parseStatus from first to last gives, a later peer replacing an earlier one. |
| Status.DistinctBlocksDistinctPeers | go/iface/configurer/usp.go:530-532 | Blocks with different keys give peers with different names. |
| WireReading.CountersRead | go/iface/configurer/usp.go:566-584 | For every key and all counters, a key line, a tx_bytes line and an rx_bytes line give one peer, and one entry of the transfers, with exactly those counters. |
| WireReading.ListedStatus | go/iface/configurer/usp.go:498-610 | From the lines that a device lists, spelled out, the status gives back its private key, port, mark and peers, whatever the device. |
| WireReading.ListedTransfers | go/iface/configurer/usp.go:340-400 | From the same lines parseTransfers gives every peer of the device its handshake time and its sent and received bytes, and no other entry. |
| UnreadableLines.FirstError | go/iface/configurer/usp.go:353-396 | On any assignments, parseTransfers fails with the error of the first one that is an error, and succeeds when there is none. |
| UnreadableLines.StatusOfAnyText | go/iface/configurer/usp.go:498-610 | On any text at all, the status lists the peer described so far at each key line, readable or not, and the one at the end. |
| UnreadableLines.OpenBlockExactly | go/iface/configurer/usp.go:520-532 | The peer described so far is what the last readable key line and the lines after it say. |
| UnreadableLines.UnreadableKeyRepeats | go/iface/configurer/usp.go:522-529 | An unreadable key line repeats the peer before it. |
| ScannerLimits.TransfersFollowTrimmedStatus | go/iface/configurer/usp.go:347-349 | On any text with valid keys and numeric counters, parseTransfers reads what parseStatus reads from the text with every line trimmed. |
| ScannerLimits.PaddedDumpDisagrees | go/iface/configurer/usp.go:349 | For every key and every number but zero, a counter line that starts with a blank makes the two scanners disagree. |
| Device.PrintedConfigApplies | go/iface/configurer/usp.go:421-451 | A device takes the printed text of a configuration exactly when removed peers stand last and bare; the text then has the effect of the configuration, except that the update-only flag is lost and IPv4-mapped prefixes become IPv4. Otherwise what comes before the first removed peer is applied and the rest is not. |
| OperationLaws.InRangeExactly | go/iface/configurer/usp.go:402-451 | The configurations it is about, spelled out: ports and keep-alives of 16 bits and a mark of 32 bits. |
| Device.RemovalAnswer | go/iface/configurer/usp.go:430-432 | What follows a removal flag on its line decides whether the device removes the peer or rejects the text, keeping what came before it. |
| Device.OnePeerAnswer | go/iface/configurer/usp.go:410-451 | What a device makes of the text of any one peer, also with a port or a keep-alive that does not fit 16 bits: the text is then rejected and everything before that line is kept. |
| WireText.DeviceListed | go/iface/configurer/usp.go:279-286 | The dump of a device, every line with its name and value written out. |
| WireText.DeviceNumbersRead | go/iface/configurer/usp.go:409-419 | A device takes a port of sixteen bits and a mark of thirty-two and rejects any other number. |
| WireText.UpdateOnlyRead | go/iface/configurer/usp.go:190-212 | A device told to update only leaves a missing peer missing; that line is never printed. |
| WireText.OtherValuesRejected | go/iface/configurer/usp.go:430-436 | A flag with any value but true is rejected. |
| Dump.StatusOfDump | go/iface/configurer/usp.go:279-286 | The status of a device lists exactly its peers, in the order of the dump, with their lists, counters, IPv4 endpoints and preshared flags. |
| Removal.ScanAllowedIPs | go/iface/configurer/usp.go:226-268 | The loop of RemoveAllowedIP computes, for any text, whether the network was met and what is kept. |
| Removal.RemovalFollowsBlocks | go/iface/configurer/usp.go:239-268 | For any dump at all, the scan meets and keeps what the blocks opened by the key hold, and never another block. |
| Removal.RemovalMatchesStatus | go/iface/configurer/usp.go:214-277 | On any dump with distinct keys and unpadded lines, the kept networks are the list that parseStatus gives for the peer without the removed prefix, in order, and the prefix is met exactly when the peer has it, if and only if the block opens with the lower-case text of the key and all its networks are readable and name that prefix by its standard text only, or the block has no networks; an unknown peer keeps nothing. |
| Removal.KeptIsWithoutExactly | go/iface/configurer/usp.go:249-268 | Comparing networks as text leaves out exactly the prefix if and only if every text is readable and is the standard text of the prefix exactly when it names it. |
| Removal.DumpCanonical | go/iface/configurer/usp.go:215-218 | Every dump of a device is written in the standard texts. |
| Removal.CanonicalFits | go/iface/configurer/usp.go:215-268 | In dumps so written the condition above holds for every peer and prefix. |
| Removal.RemovalOfDump | go/iface/configurer/usp.go:214-277 | What the scan finds in the dump of a device, in terms of the device. |
| WireReading.ListedRemoval | go/iface/configurer/usp.go:214-277 | The same for the lines that a device lists, spelled out. |
| DeviceLaws.AllowAllOwners | go/iface/configurer/usp.go:83-84 | Giving prefixes to a peer makes it the only owner of each and changes no other ownership. |
| DeviceLaws.ConfigurePeerOwners | go/iface/configurer/usp.go:80-94 | Who owns a prefix after a peer was configured: the peer when it was given the prefix, otherwise the earlier owner unless its list was replaced. |
| DeviceLaws.ConfigurePeerElsewhere | go/iface/configurer/usp.go:80-94 | A peer that owns none of the given prefixes stays exactly as it was. |
| DeviceLaws.ConfigurePeerKeepsGood | go/iface/configurer/usp.go:80-94 | Every configuration keeps each prefix with one owner who lists it once. |
| DeviceLaws.ConfigurePeerFields | go/iface/configurer/usp.go:80-94 | The configured peer has the given preshared key, endpoint and keep-alive, else the earlier ones, and keeps its counters. |
| Operations.ReplaceConfigures | go/iface/configurer/usp.go:228-276 | Replacing the list of a peer by some of its own prefixes changes that list, in order, and nothing else. |
| Operations.ReaddConfigures | go/iface/configurer/usp.go:139-165 | Removing a peer and adding it again with its prefixes keeps the prefixes and resets everything else. |
| Operations.RemoveEndpointEnds | go/iface/configurer/usp.go:147-165 | RemoveEndpointAddress ends in one of three states: unchanged with an error, the peer removed with an error, or the peer reset; which one, by the call that fails. |
| Operations.OperationsKeepGood | go/iface/configurer/kernel_unix.go:51-202 | All operations of both configurers keep the good states of the device, whichever of their calls fail. |
| OperationLaws.GoodDevExactly | go/iface/configurer/usp.go:279-286 | The good states, spelled out: numbers and ports that fit, and masked prefixes that are not IPv4-mapped, each in one place only. |
| Operations.OthersUnchanged | go/iface/configurer/kernel_unix.go:51-202 | No operation of either configurer, whatever fails in it, touches a peer other than the named one that owns none of the given prefixes. |
| Operations.AddThenRemove | go/iface/configurer/usp.go:190-277 | Adding a prefix that nobody owns and removing it again restores the device exactly when the prefix has no host bits and is not IPv4-mapped; any other one is not found again. |
| OperationLaws.UpdateLaw | go/iface/configurer/usp.go:75-107 | An update that works adds exactly the given prefixes to those of the peer, sets the keep-alive and the endpoint and preshared key that are given, and changes nothing else; in both configurers. |
| OperationLaws.AddLaw | go/iface/configurer/usp.go:190-212 | What AddAllowedIP does to owners and settings, in each configurer. |
| OperationLaws.RemoveLaw | go/iface/configurer/usp.go:214-277 | What RemoveAllowedIP does to owners, lists and settings and which error it returns, in each configurer. |
| OperationLaws.RemoveEndpointLaw | go/iface/configurer/usp.go:109-168 | What RemoveEndpointAddress leaves of the peer: its prefixes in order and zeros. |
| OperationLaws.RemovePeerLaw | go/iface/configurer/usp.go:170-188 | Removing a peer touches no other peer. |
| Operations.UpdatePeerAgrees | go/iface/configurer/kernel_unix.go:51-74 | UpdatePeer has the same outcome in both configurers, for prefixes that are not IPv4-mapped and numbers that fit. |
| Operations.AddAllowedIPAgrees | go/iface/configurer/kernel_unix.go:145-155 | AddAllowedIP has the same outcome in both configurers exactly when the key is unreadable, the call fails or the peer exists. |
| Operations.RemoveAllowedIPAgrees | go/iface/configurer/kernel_unix.go:162-202 | The exact condition, for every prefix, under which RemoveAllowedIP has the same outcome in both: whether a call fails, whether the key is readable, whether the peer owns the prefix, whether the prefix is IPv4-mapped and whether the peer is named by the standard text of its key. |
| Operations.RemoveAllowedIPStatesAgree | go/iface/configurer/kernel_unix.go:178-201 | The device states differ exactly when all calls work and the peer owns the prefix in its IPv4 form, and either the key is in another text or the prefix is IPv4-mapped, but not both. |
| Configurers.UspConfigurer.UpdatePeer | go/iface/configurer/usp.go:75-107 | Through printed text, reaches the state that the configuration describes, or the one before the value that does not fit; whatever the arguments. |
| Configurers.UspConfigurer.RemovePeer | go/iface/configurer/usp.go:170-188 | Removes exactly the named peer, or changes nothing when the call fails. |
| Configurers.UspConfigurer.RemoveEndpointAddress | go/iface/configurer/usp.go:109-168 | The peer keeps its allowed list and is otherwise reset; an unknown peer and a failing read change nothing; a failure between the two calls leaves the peer removed. |
| Configurers.UspConfigurer.AddAllowedIP | go/iface/configurer/usp.go:190-212 | Gives the prefix to the peer, creating it when it is missing; a failing call changes nothing. |
| Configurers.UspConfigurer.RemoveAllowedIP | go/iface/configurer/usp.go:214-277 | The peer loses the prefix and nothing else changes; an absent prefix and a failing call are errors and change nothing. |
| Configurers.KernelConfigurer.UpdatePeer | go/iface/configurer/kernel_unix.go:51-74 | Reaches the same state as the userspace form, with the same errors. |
| Configurers.KernelConfigurer.RemovePeer | go/iface/configurer/kernel_unix.go:114-133 | Reaches the same state as the userspace form, with the same errors. |
| Configurers.KernelConfigurer.RemoveEndpointAddress | go/iface/configurer/kernel_unix.go:76-112 | Reaches the same state as the userspace form, with the same errors. |
| Configurers.KernelConfigurer.AddAllowedIP | go/iface/configurer/kernel_unix.go:135-160 | Gives the prefix to an existing peer; a missing peer stays missing. |
| Configurers.KernelConfigurer.RemoveAllowedIP | go/iface/configurer/kernel_unix.go:162-202 | The peer loses the prefix that prints like the given one, which for an IPv4-mapped prefix is the IPv4 one, and nothing else changes; an absent prefix is no error. |
| Configurers.KernelConfigurer.DeleteAt | go/iface/configurer/kernel_unix.go:182 | Deleting in place moves the later elements down by one and leaves one cell over. |
| Configurers.KernelConfigurer.DeleteNetwork | go/iface/configurer/kernel_unix.go:178-185 | The list without the one network that prints like the given one, which may be IPv4-mapped. |
| Configurers.KernelConfigurer.GetPeer | go/iface/configurer/kernel_unix.go:204-226 | Finds the list of the peer whose key has exactly the given text. |
| Configurers.OnBoth | go/iface/configurer/kernel_unix.go:51-202 | The same operation on the same device state with the same failing calls, once through text and once directly, has the same outcome exactly when both do it alike: always, except for adding to a missing peer and for removing an absent prefix or under a non-standard key text. |
| NetIPLists.CompareNetIPLists | go/internal/engine.go:2075-2104 | True exactly when every text is readable and both lists hold the same prefixes equally often. |
| NetIPLists.TakeNetworks | go/internal/engine.go:2085-2096 | Succeeds exactly when every text is readable and all are covered by the counts, and then leaves the difference. |
| NetIPLists.FinalPassIsIdle | go/internal/engine.go:2098-2103 | With lists of equal length no count is left after the second loop, so the final pass never decides. |
| NetIPLists.SameTextsSamePrefixes | go/internal/engine.go:2080-2093 | Counting texts is counting prefixes. |
| Checks.SortStrings | go/internal/engine.go:2016-2020 | Sorting in place gives the sorted list. |
| Checks.LeqExactly | go/internal/engine.go:2016 | Strings are ordered by the first character in which they differ, and before their continuations. |
| Checks.SortsAlike | go/internal/engine.go:2016-2020 | Two lists sort alike exactly when they are permutations of each other. |
| Checks.IsChecksEqual | go/internal/engine.go:2011-2029 | Compares the normalised checks. |
| Checks.ChecksEquivalence | go/internal/engine.go:2011-2029 | The comparison is an equivalence. |
| Checks.ChecksCompareJoined | go/internal/engine.go:2011-2029 | For any checks, the comparison is equality of the joined texts as multisets. |
| Checks.OrderDoesNotMatter | go/internal/engine.go:2011-2029 | Checks that are equal as multisets of multisets of files always compare equal. |
| Checks.ChecksEqualExactly | go/internal/engine.go:2011-2029 | When no file name has a bar and no check is one empty name, checks compare equal exactly when they are equal as multisets of multisets. |
| Checks.BarsAndBlanksCollide | go/internal/engine.go:2018 | Pairs of different checks that compare equal: a name with a bar and its two parts, one empty name and none. |
| Checks.OneNameConfused | go/internal/engine.go:2018 | A check of one name shares its joined text with a different check exactly when the name is empty or a bar splits it into ordered parts. |
| Checks.JoinedTextConfused | go/internal/engine.go:2018 | Any check of no names, or of several, compares equal to the check whose single name is its joined text. |
| Checks.ToldApartExactly | go/internal/engine.go:2011-2029 | A list of checks compares equal to no different list exactly when every check in it is of one name that is not empty and that no bar splits into two ordered parts. |
| Engine.Engine.RemovePeers | go/internal/engine.go:683-699 | Drops the peers that the update does not list, and no others. |
| Engine.Engine.RemoveAllPeers | go/internal/engine.go:701-710 | Empties the store. |
| Engine.Engine.AddNewPeer | go/internal/engine.go:1279-1311 | Adds a connection made from the entry when its key is missing; fails exactly when that cannot be done, and then changes nothing; panics exactly on a missing key without networks whose connection can be made. |
| Engine.Engine.AddNewPeers | go/internal/engine.go:1268-1276 | Keeps what is stored; every missing key gets a connection made from its first entry; succeeds exactly when all of them can be made, and panics exactly when the first that cannot is one without networks. |
| Engine.Engine.ModifyPeers | go/internal/engine.go:634-679 | Exactly the connections that some entry differs from are dropped and made again. |
| Engine.Engine.UpdateNetworkMap | go/internal/engine.go:1009-1132 | Which outcome occurs, exactly, a panic included; a stale map changes nothing, a failed one keeps the serial and leaves no peer that the map lacks, an applied one reconciles the store; unchanged listed peers keep their very objects either way. |
| Engine.Engine.UpdateChecksIfNew | go/internal/engine.go:864-899 | The stored checks always equal the last ones received, also when telling the server failed. |
| Engine.Engine.HandleSync | go/internal/engine.go:749-810 | The network map is reached only when the steps before it worked, and then has the effect above. |
| Engine.ReconciledBySteps | go/internal/engine.go:1093-1106 | Removing, modifying and adding together reconcile the store with the update. |
| Engine.ChangedKeys | go/internal/engine.go:640-665 | A stored key counts as changed exactly when some entry of that key differs from its connection. |
| Reconciliation.StoredMatchesAnEntry | go/internal/engine.go:1089-1115 | After an applied update every stored connection matches an entry of its key. |
| Reconciliation.RealizedExactly | go/internal/engine.go:1089-1115 | The store realizes every entry of an applied update exactly when entries with the same key agree. |
| Reconciliation.DistinctPeersRealized | go/internal/engine.go:1089-1115 | With distinct keys the store is what the update says: its keys, agent versions and network multisets. |
| Reconciliation.ChangedExactly | go/internal/engine.go:650-665 | With distinct keys a stored peer is replaced exactly when its agent version or its network multiset differs. |
| Reconciliation.AppliedAgain | go/internal/engine.go:634-679 | After an applied update, applying it again finds nothing to change, and changes nothing, exactly when its entries agree; it then succeeds whatever connections are refused. |
| Reconciliation.FollowersAreEqual | go/internal/engine.go:1089-1115 | A map with distinct keys determines the peers that follow it. |
| Reconciliation.Receive | go/internal/engine.go:1009-1132 | Every call of the engine is a step of the runs below. |
| Reconciliation.SerialNeverDecreases | go/internal/engine.go:1018-1022 | Over any run, with any failures, the recorded serial never decreases. |
| Reconciliation.FailedMapIsTakenAgain | go/internal/engine.go:1097-1125 | A map whose peer phase failed is not stale when it comes again. |
| Reconciliation.OlderMapsChangeNothing | go/internal/engine.go:1018-1022 | A map older than an applied one leaves the peers as they are. |
| Reconciliation.RunEndsWithLastApplied | go/internal/engine.go:1009-1132 | Any run ends with the serial of the last applied map, which is the greatest applied one, and with its peers unless a later map failed. |
| Reconciliation.RunEndsWithNewest | go/internal/engine.go:1009-1132 | In any run, failures included, in which a map was applied and only older ones follow, the peers at the end are the ones of that map. |
| Reconciliation.NewestIsNotStale | go/internal/engine.go:1018-1022 | The last of the maps with the greatest serial is never skipped as old, whatever happened before it. |
| Reconciliation.NewestExists | go/internal/engine.go:1018-1022 | Every run of maps has a newest one: the last of those with the greatest serial. |
| Reconciliation.RunOfOlderMaps | go/internal/engine.go:1018-1022 | A run of maps that are all older than what is recorded changes nothing. |
| Reconciliation.OrderOfArrivalDoesNotMatter | go/internal/engine.go:1009-1132 | Two runs, failures included, that applied the same map with distinct keys and saw only older ones after it end in the same state. |
| RouteManager.Manager.UpdateSystemRoutes | go/internal/routemanager/manager.go:321-371 | The active groups are the non-empty ones as far as adding works; surviving groups keep their handler object; every handler was added at most once and every dropped one removed once. |
| RouteManager.Manager.StopObsoleteClients | go/internal/routemanager/manager.go:504-511 | Stops the watchers of the groups that are gone, each once, and no others. |
| RouteManager.Manager.ServeClients | go/internal/routemanager/manager.go:513-548 | Running watchers keep running, new ones are bound to the active handler, and every watcher that was to be told is told once. |
| RouteManager.Manager.Reconcile | go/internal/routemanager/manager.go:321-548 | Which handlers and watchers are there afterwards, what every watcher was told and whether it succeeded; watchers and handlers agree afterwards exactly when no running watcher's group came without a route. |
| RouteManager.Manager.UpdateClients | go/internal/routemanager/manager.go:513-548 | Stopping and serving the watchers: those of vanished groups stop, the others stay or are started on the active handlers, and each is told what it must be told. |
| RouteManager.Manager.UpdateRoutes | go/internal/routemanager/manager.go:373-416 | The same for an update, which tells every watcher; a closed manager or one with client routes disabled changes nothing. |
| RouteManager.Manager.TriggerSelection | go/internal/routemanager/manager.go:454-501 | The same for a selection, which tells only the new watchers. |
| RouteManager.ReconciledWithoutErrors | go/internal/routemanager/manager.go:321-371 | An update or selection without errors ends with exactly the non-empty groups active. |
| RouteManager.KeptBound | go/internal/routemanager/manager.go:321-548 | With groups that have routes, agreement before is agreement after, whatever fails. |
| RouteManager.Manager.RunOperations | go/internal/routemanager/manager.go:373-501 | Over any run of updates and selections with any failures, agreement and both conservation laws hold after every operation. |
| RouteManager.BoundAfter | go/internal/routemanager/manager.go:504-548 | The same equivalence on the two maps alone. |
| RouteManager.EmptyGroupBreaksAgreement | go/internal/routemanager/manager.go:504-511 | A group that comes without a route while its watcher runs breaks the agreement. |
| RouteManager.ClassifyRoutes | go/internal/routemanager/manager.go:550-574 | Own routes are server routes; the routes of the other groups are grouped, all of them when the system can route any prefix and otherwise exactly the dynamic ones and those longer than the limit; no group is empty. |
| RouteManager.ClientGroupMembers | go/internal/routemanager/manager.go:564-572 | A client group holds exactly the routes of a group that this peer does not serve that are dynamic, longer than the limit, or any at all when the system can route them. |
| RouteManager.ClientGroupOrder | go/internal/routemanager/manager.go:564-572 | The routes of a client group are in the order of the update. |
| RouteManager.ServedRoutesMembers | go/internal/routemanager/manager.go:556-562 | The server routes are exactly those of the peer, each under its id. |
| RouteManager.LastIsServed | go/internal/routemanager/manager.go:556-562 | Of several own routes with one id the last is served. |
| RouteManager.OwnIDsMembers | go/internal/routemanager/manager.go:554-562 | A group counts as served by this peer exactly when one of its routes names the peer. |
| SignalDelivery.EveryRunKeepsInvariant | go/signal/client/grpc.go:401-445 | Every interleaving keeps the order of the messages and at most one running worker, and loses nothing while undisturbed. |
| SignalDelivery.AtMostOneWorkerRuns | go/signal/client/grpc.go:430-445 | At most one worker ever runs, across reconnections and closings. |
| SignalDelivery.HandledInOrder | go/signal/client/worker.go:26-55 | The handled messages are some of the received ones, in order, whatever is cancelled. |
| SignalDelivery.HandledExactly | go/signal/client/worker.go:35-47 | In every run the messages that reached the handler are exactly those that are done after a working decryption and the one that some worker's handler is at. |
| SignalDelivery.HandledByDecryption | go/signal/client/worker.go:39-45 | In every run the messages that reached the handler are exactly those that some worker decrypted. |
| SignalDelivery.NothingIsLost | go/signal/client/worker.go:26-55 | Until a cancellation the received messages are those done, one at work, one buffered and one waiting, and those done are the first ones, so only failed decryptions leave gaps. |
| SignalDelivery.NoPanicBeforeClose | go/signal/client/grpc.go:424-426 | A corollary of the invariant: the receiving loop always has a worker until Close is called. |
| SignalDelivery.PanicsExactly | go/signal/client/grpc.go:424-426 | In every run the receiving loop panics exactly when some message is received while every Connect was followed by a clearing of the worker. |
| SignalDelivery.NoWorkerExactly | go/signal/client/grpc.go:424-445 | In every run the client has no worker exactly when every Connect was followed by a clearing of the worker. |
| SignalDelivery.PanicAfterClose | go/signal/client/grpc.go:424-426 | A run in which it does: Close takes the worker from an open stream, and then a message comes. |
| SignalDelivery.MovesMakeProgress | go/signal/client/worker.go:35-55 | Every step that moves a message on lowers the work left. |
| SignalDelivery.SomeMoveIsPossible | go/signal/client/worker.go:26-55 | While messages are on their way, some step can be taken: no deadlock. |
| SignalDelivery.MovesFinish | go/signal/client/worker.go:35-55 | However the steps are chosen, there are at most as many as work was left. |
| SignalDelivery.CanDrain | go/signal/client/worker.go:35-55 | From every undisturbed state all received messages can be brought to their end. |
| SignalDelivery.SendExactly | go/signal/client/worker.go:26-33 | A message waits for the buffer exactly while its one slot is taken. |
| SignalDelivery.ReceiverStops | go/signal/client/worker.go:28-31 | Once the client is cancelled the receiving loop can leave its message and its stream. |
| SignalDelivery.StreamIsRenewed | go/signal/client/grpc.go:430-445 | After a stream ended the next one is served by the worker that is there, or by a new one. |
| SignalDelivery.CloseFinishes | go/signal/client/grpc.go:96-104 | From every reachable state Close can finish: it cancels the worker, which ends its work and exits, and clears it. |
| StreamHandshake.Client.NotifyStreamConnected | go/signal/client/grpc.go:198-212 | Closes the current channel once and releases everybody who registered before. |
| StreamHandshake.Client.GetStreamStatusChan | go/signal/client/grpc.go:214-221 | Hands out the current open channel, making one only when there is none. |
| StreamHandshake.Waiter.ReleasedExactly | go/signal/client/grpc.go:283-294 | A waiter's channel is closed exactly when a connect notification came after it registered, at most once; otherwise it is still the current one. |
| StreamHandshake.StepWaiter | go/signal/client/grpc.go:283-294 | A waiter returns exactly when it sees the stream connected, or waits and a connect came after it registered or the client was cancelled. |
| StreamHandshake.RunEvents | go/signal/client/grpc.go:192-221 | Any interleaving of notifications and waiters keeps every channel closed once or current. |
| StreamHandshake.LateWaiterWaits | go/signal/client/grpc.go:285-289 | A connect notification between the unlocked status check and the registration is missed: the waiter waits although the stream is connected. |
| PolicyRouting.LongestIsLongest | go/internal/routemanager/systemops/systemops_linux.go:78-96 | The lookup finds the only route whose prefix holds the address and is longer than every other that does. |
| PolicyRouting.ContainsByBits | go/internal/routemanager/systemops/systemops_linux.go:78-96 | An address is in a network exactly when it starts with the bits of the prefix. |
| PolicyRouting.DefaultIsEverything | go/internal/routemanager/systemops/systemops_linux.go:188-189 | The default routes give no bit, so every address of their family is in them. |
| PolicyRouting.LongestByBits | go/internal/routemanager/systemops/systemops_linux.go:78-96 | The lookup finds the only route with the longest prefix whose bits start the address. |
| PolicyRouting.SetupRulesAre | go/internal/routemanager/systemops/systemops_linux.go:78-85 | The rules of setup in full: priorities, marks, tables 254 and 0x1BD0, inversion and suppressed lengths. |
| PolicyRouting.OneOrder | go/internal/routemanager/systemops/systemops_linux.go:78-85 | The set-up rules and the main rule of a family can be tried in one order only. |
| PolicyRouting.RoutedBySetup | go/internal/routemanager/systemops/systemops_linux.go:78-96 | For any tables, a marked packet is routed as the main table alone would; another one by the main table when its match there is not a default route, then by the VPN table, then by the main table. |
| SystemOps.Kernel.RouteList | go/internal/routemanager/systemops/systemops_linux.go:740-743 | Lists every route of a family in a table once; exactly the default route comes without a destination. |
| SystemOps.PossibleExactly | go/internal/routemanager/systemops/systemops_linux.go:643-688 | The kernels that are considered, spelled out: destinations are masked, and without IPv6 nothing is IPv6. |
| SystemOps.SysOps.AddRule | go/internal/routemanager/systemops/systemops_linux.go:835-849 | A rule that is there already or not supported is fine. |
| SystemOps.SysOps.RemoveRule | go/internal/routemanager/systemops/systemops_linux.go:852-866 | A rule that is not there or not supported is fine. |
| SystemOps.SysOps.AddRoute | go/internal/routemanager/systemops/systemops_linux.go:643-688 | Adds exactly the masked destination; one that is there already is an error, an unsupported family is not. |
| SystemOps.SysOps.RemoveRoute | go/internal/routemanager/systemops/systemops_linux.go:690-737 | Removes exactly the route that leads where the request says; a missing one is fine. |
| SystemOps.SysOps.AddVPNRoute | go/internal/routemanager/systemops/systemops_linux.go:173-198 | When it succeeds, exactly; no route is lost or changed and the main table is untouched; a failure leaves the table as it was except for the IPv6 companion, exactly when only the second step failed; and the IPv4 default route keeps its companion exactly unless a default route is written in disguise. |
| SystemOps.SysOps.RemoveVPNRoute | go/internal/routemanager/systemops/systemops_linux.go:200-219 | When it succeeds, exactly; nothing but the prefix and the companion goes; the invariant is lost exactly when the companion goes and the IPv4 default route stays. |
| SystemOps.SysOps.RetryAfterFailure | go/internal/routemanager/systemops/systemops_linux.go:188-196 | After a failure in the second step every later addition of the IPv4 default route fails on the companion that stayed; a removal clears the way and the next addition succeeds. |
| SystemOps.SysOps.ApplyReceived | go/internal/routemanager/manager.go:178 | For a received network, which is masked before it gets here, one change keeps the IPv6 companion of the IPv4 default route exactly unless a removal takes the companion and is refused for the default route. |
| SystemOps.SysOps.FlushRoutes | go/internal/routemanager/systemops/systemops_linux.go:739-762 | What is left of a table: the routes of the other family and the refused ones. Succeeds exactly when the family can be listed and none of its routes is refused. |
| SystemOps.SysOps.SetupRouting | go/internal/routemanager/systemops/systemops_linux.go:97-130 | All four rules or, when the cleanup works, none; it succeeds exactly when no rule is refused, and the cleanup works exactly when nothing that it lists or deletes is; no other table changes. |
| SystemOps.SysOps.CleanupRouting | go/internal/routemanager/systemops/systemops_linux.go:135-163 | Which VPN routes and which of the four rules are left, whatever is refused; succeeds, leaving none, exactly when nothing that it lists or deletes is refused; no other table changes. |
| SystemOps.SysOps.RunRoutes | go/internal/routemanager/systemops/systemops_linux.go:173-219 | Over any run of additions and removals of received networks, whatever else fails, the IPv4 default route in the VPN table has its unreachable IPv6 companion as long as no removal stops half-way; no other table changes. |
| SystemOps.SysOps.RunSession | go/internal/routemanager/systemops/systemops_linux.go:97-219 | Over a whole session of setup, changes and cleanup, whatever fails, the main table and what it decides alone for any packet stay as they were; when the cleanup works the kernel is as it was found. |
| SystemOps.AllowedExactly | go/internal/routemanager/systemops/systemops.go:98-114 | Which prefixes may be routed, by the networks of their addresses: not the loopback, link-local and multicast ones, not the own network, and the zero address only as a default route. |
| SystemOps.MaskedDefault | go/internal/routemanager/systemops/systemops_linux.go:650-654 | A masked prefix is the IPv4 default route exactly when it is IPv4 of length zero, so no masked prefix is one in disguise. |
| SystemOps.DisguisedDefaultLeaks | go/internal/routemanager/systemops/systemops_linux.go:189-195 | On the bare function, an unmasked IPv4 prefix of length zero would go in without the companion; networks from the management service are masked before and never take this path. |
| SystemOps.RulesAfterSetup | go/internal/routemanager/systemops/systemops_linux.go:78-116 | After setup each family has the rules that the routing theorem is about. |
| SystemOps.NoLeakThroughMain | go/internal/routemanager/systemops/systemops_linux.go:188-193 | With the IPv4 default route in the VPN table, an unmarked IPv6 packet never leaves by a default route of the main table. |

## Left out

- ScannerAgreement.ScannersAgree: is about texts whose key and counter lines have no surrounding white space, as devices write them; `ScannerLimits` says what happens otherwise.
- PrintParse.PrintedConfigReadsBack: is about configurations without removed peers, because the text of a removed peer runs into what follows it.
- Removal.RemovalMatchesStatus: is about dumps with one block for each key and no padded lines, which is what devices write.
- Configurers.KernelConfigurer.UpdatePeer: asks for a port and a keep-alive that fit 16 bits and for prefixes that are not IPv4-mapped, because what the kernel makes of others is decided in code that is not part of this model; the userspace form takes all values.
- Configurers.KernelConfigurer.AddAllowedIP: asks for a prefix that is not IPv4-mapped, for the same reason.
- Configurers.OnBoth: asks for the same of an update and an addition; a call that fails for outside reasons changes nothing on the device.
- Configurers.UspConfigurer.RemoveAllowedIP: the update-only flag has no effect here, because a peer without the prefix is reported before anything is set.
- Checks.ChecksEqualExactly: excludes all names with a bar and checks of one empty name; `Checks.ChecksCompareJoined` says what the comparison is for all of them.
- Engine.Engine.UpdateNetworkMap: covers the serial guard and the peer phase; DNS, routes, firewall, forwarding and SSH updates in between are not modelled, and their errors are only logged.
- RouteManager.Manager.RunOperations: asks for groups with at least one route, as ClassifyRoutes makes them; `Reconcile` says exactly what an empty group breaks.
- SystemOps.SysOps.RunRoutes: asks that no removal of the default route is refused after its companion was removed, which `SystemOps.SysOps.ApplyReceived` shows to break the invariant; all routes lead to one WireGuard interface.
- PolicyRouting.RoutedBySetup: is about the rules of setup next to the main rule; rules of other programs and the local table are not modelled, and a suppressed length applies to routes of every kind.
- SignalDelivery.CanDrain: takes for granted that a handler returns.
- A panic is an outcome after which the theorems about runs go on; that the process ends there, and starts again without peers, is not modelled.
- IPv6 text, including zones, is a codec that every theorem quantifies over; IPv4 addresses and all CIDR and endpoint syntax are concrete.
- The rounding of intervals beyond some months when they are turned into seconds as floating-point numbers.
- The classes of addresses are those of Go 1.21, in which an IPv4-mapped address is an IPv6 one.
- Strings are sequences of characters; they are compared by character where the original compares bytes.
- The public key that a status derives from the private key is left as the private key.
- The status recorder, the activity recorder, the route selector, the connection manager and the peer store are represented by what the modelled code needs of them.
- The constants ControlPlaneMark and MinRangeBits are parameters; the files that define them are not part of this model.
- Close and Connect each check and replace the worker in one step of the model; the original does so without a lock.
- The shutdown of the route manager, the server router and the notifier.
- Legacy routing, reference counters, sysctl settings and the routing-table name file.
- Dialing, backoff, TLS, timeouts, logging and generated code.
- The C client, the helper commands and the encryption wrapper, which would only add easy members.
