# SCION border-router packet construction, FlowTele path descriptions and PILA certificates

This project models, in Dafny, five pieces of the netsec-scion code base.

**Border-router packet construction (`go/border/rpkt/create.go`).**
- `RtrPktFromScnPkt` lays a structured SCION packet (`spkt.ScnPkt`) out into the router's fixed-capacity packet buffer. The order is:
  - common header;
  - destination and source ISD-AS;
  - destination and source host;
  - path;
  - hop-by-hop extensions, then end-to-end extensions;
  - L4 header, then payload.
- It records where each section starts and keeps the common header's total length equal to the buffer's active length.
- `addL4` writes the L4 protocol tag into the last extension's next-header byte, or into the common header when there are no extensions.
- `SetPld` writes the payload and trims the buffer behind it.
- `CreateReplyScnPkt` reverses a received packet and makes it come from the router.
- `CreateReply` lays the reply out, advances its path 0, 1 or 2 times by the crossover rules, and gives it exactly one egress, computed by `replyEgress`.

The buffer is a Dafny `array` together with an active length (`rawLen`), so the Go re-slicing to capacity and trimming back become updates of `rawLen`. The byte image of a laid-out packet is the function `Spkt.Wire`, and every construction method is proved against it.

**FlowTele path descriptions (`go/flowtele/path.go`).**
- `scionPathDescription.Set` reads a text such as `1-ff00:0:110 1>2 1-ff00:0:111 3>4 1-ff00:0:112` into two parallel lists, one of ISD-ASes and one of interface IDs.
- `String` prints them back.
- `IsEqual` compares two descriptions, and `IsEmpty` tests for no entries.

The round trip is proved both ways:
- canonical lists print to a text that `Set` reads back into the same lists;
- whatever `Set` reads from a matching text is canonical, so it prints and reads back to itself;
- a text whose every IA and ID is spelled as `String` spells it (no leading zeros, an ID below 2^64) prints back, from what `Set` reads, as exactly that text.

**PILA endpoint certificates (`go/lib/crypto/cert/pila_cert.go`).**
- The validity window check.
- The signing input: every field but the signature, the subject as its address's text. Version 0 is refused, and so is a subject address of a length other than 0, 4 or 16 bytes, which has no text.
- `Sign`, `Verify` with its order of checks, field-wise `Eq` and the deep `Copy`.
- Decoding with the version check.
- The chain check with its Ed25519 gate.

**PILA issuance (`go/cert_srv/pila.go`).**
- The certificate server's handler refuses a request whose source address differs from the requested address.
- Otherwise it prepares a certificate valid for one hour, signs it in place with the AS's key and combines it with the newest stored chain.

**PILA requests (`go/lib/ctrl/cert_mgmt/pila_req.go`).**
- The host a request names: IPv4 first, then IPv6, else none.
- Its message type.

Time, cryptographic signing and verification, JSON decoding and the configuration store are parameters of the model: functions passed in, or a `now` value.

Three behaviours of the code that the model keeps as they are:
- The reply's source host is the address the packet came in on, whichever way it arrived (`go/border/rpkt/create.go:173-175`).
- The reply's egress comes from the current interface of the inbound packet (`go/border/rpkt/create.go:235`), not of the reply.
- A PILA request that names no address makes the Go handler dereference nil. The model gives that case its own outcome, `NoEndpoint`.

`Set` drops the error of an interface ID that does not parse (`go/flowtele/path.go:64,69`). That slot keeps its zero, and the model does the same (`FlowtelePath.UnmarshalID`).

Files:
- `wrappers.dfy`: Option and Result.
- `text.dfy`: split, join, and decimal and hex integers.
- `addr.dfy`: ISD-AS, host addresses and IP helpers.
- `spkt.dfy`: the structured packet, its sizes, layout and wire image.
- `rawbuf.dfy`: byte-image algebra of the buffer.
- `extn_chain.dfy`: adding extensions step by step.
- `rpkt.dfy`: the router packet class.
- `flowtele_path.dfy` and `flowtele_roundtrip.dfy`: the path description and its round trip.
- `pila_cert.dfy`, `pila_req.dfy` and `cert_srv_pila.dfy`: the PILA code.

## Model

| member | source | states |
|---|---|---|
| Rpkt.RtrPkt.constructor | go/border/rpkt/create.go:33 | a new packet has a zeroed buffer at full capacity and every field empty |
| Rpkt.RtrPktFromScnPkt | go/border/rpkt/create.go:32-102 | it succeeds exactly when the laid-out packet fits the buffer, else it gives a capacity error; the new packet holds exactly `Wire(sp)` in its active slice, the layout's offsets, the built common header and `sp`'s fields; it comes from the router (`DirSelf`) towards `dirTo`, has no egress and has not advanced its path |
| Rpkt.RtrPkt.FillHdr | go/border/rpkt/create.go:43-71 | the common header starts with both host types, the 16-bit total length, the 8-bit header length, the info and hop pointers in lines (0 without a path) and `L4None`; the address offsets are laid back to back; the buffer holds the five address and path writes; the L4 offset is the header's end |
| Rpkt.RtrPkt.ExtnAdd | go/border/rpkt/create.go:73 | adding one extension writes it at the L4 offset, points the previous last extension (or the common header) at its class, records its slot and appends it to its list; without room it is a capacity error that changes nothing; fields other than the extension slots and the next-header are kept |
| Rpkt.RtrPkt.AddExtnList | go/border/rpkt/create.go:72-82 | the loop over one extension list ends in the state of adding all of them, or in a capacity error exactly when the step-by-step addition runs out of room |
| Rpkt.RtrPkt.FillExtns | go/border/rpkt/create.go:72-82 | the two loops add hop-by-hop then end-to-end extensions in chain order; the lists end as the packet's lists, or a capacity error is returned exactly when they do not fit |
| Rpkt.RtrPkt.AddChain | go/border/rpkt/create.go:70-85 | the extension stage succeeds exactly when header plus extension chain fit the buffer, leaving the chain image with the last extension saying that nothing follows and the layout's slots |
| Rpkt.RtrPkt.NextHdrSlot | go/border/rpkt/create.go:117-123 | the two loops find the slot of the last extension written, the end-to-end one if any, else the hop-by-hop one, else none |
| Rpkt.RtrPkt.AddL4 | go/border/rpkt/create.go:105-136 | the L4 header is written at the L4 offset, the payload offset moves behind it, the protocol tag lands in the last extension's slot or the common header's next-header field, the slice ends at the payload offset and `TotalLen` records that length; a header that does not fit is a capacity error with the slice at full capacity |
| Rpkt.RtrPkt.SetPld | go/border/rpkt/create.go:139-161 | the payload is written at the payload offset, the slice ends right behind it (at the offset for no payload), the L4 header records the payload length and `TotalLen` equals the slice length; a payload that does not fit is a capacity error |
| Rpkt.RtrPkt.PutL4 | go/border/rpkt/create.go:86-89 | the `addL4` step succeeds exactly when the L4 header fits behind the extensions, and then the buffer is the placed image |
| Rpkt.RtrPkt.PutPld | go/border/rpkt/create.go:90-93 | the `SetPld` step succeeds exactly when the whole packet fits, and then the packet is laid out as `Wire(sp)` |
| Rpkt.RtrPkt.FinishNoL4 | go/border/rpkt/create.go:94-99 | without an L4 header the slice is trimmed to the end of the last extension (or the path), and `TotalLen` and the written common header record that length |
| Rpkt.RtrPkt.Lay | go/border/rpkt/create.go:70-100 | after the header, the extensions and the L4 header and payload succeed exactly when the packet fits, leaving it laid out |
| Rpkt.RtrPkt.Build | go/border/rpkt/create.go:42-100 | the whole layout succeeds exactly when the packet fits, leaving it laid out, and does not touch direction, context, egress or path count |
| Rpkt.RtrPkt.CreateReplyScnPkt | go/border/rpkt/create.go:165-177 | a failed read-back or reversal is passed on; otherwise the reply goes to the packet's source, comes from the router's IA and from the address the packet arrived at whatever the direction, and keeps extensions, L4 and payload |
| Rpkt.RtrPkt.ReplyOfBuilt | go/border/rpkt/create.go:165-177 | for a laid-out canonical packet the reply fails exactly when its path cannot be reversed, and otherwise carries the reversed path back to the sender |
| Rpkt.RtrPkt.ReadBack | go/border/rpkt/create.go:166 | reading back a laid-out canonical packet gives the packet as delivered |
| Rpkt.RtrPkt.ReplyEgress | go/border/rpkt/create.go:231-241 | from a local host: the local socket it came in on and its sender; otherwise: an error without a current interface, else that interface's external socket (none if unbound) and its remote address |
| Rpkt.RtrPkt.Advance | go/border/rpkt/create.go:185-220 | `IncPath` is called exactly as often as `ReplyIncs` says, and an unreadable hop field or an unadvanceable path ends it with that error |
| Rpkt.RtrPkt.CreateReply | go/border/rpkt/create.go:179-227 | it fails exactly when the reply does not fit, the path cannot be advanced or there is no egress, and then with the error of the first of these checks to fail, in that order; on success the reply is a fresh laid-out packet from the router towards the inbound direction, advanced `ReplyIncs` times, with exactly one egress, the inbound packet's `replyEgress` |
| Rpkt.RtrPkt.IncPath | go/border/rpkt/create.go:199 | the advancement counter goes up by one exactly when the packet has a path section, else it is a path error |
| Rpkt.ReplyIncs | go/border/rpkt/create.go:189-220 | no advancement when the reply goes to the local IA; otherwise the count of `IncPathCount` on the hop field it starts at, at most 2 and only on a packet with a path |
| Spkt.IncPathCount | go/border/rpkt/create.go:195-219 | 2 exactly on a crossover hop when the forward path was advanced, 0 exactly when the hop is not a crossover and the packet did not come from outside, at least 1 on any crossover hop |
| Spkt.LayoutOrder | go/border/rpkt/create.go:51-64 | dstIA at the common header's end, srcIA `IABytes` later, dstHost `IABytes` later, srcHost `dstHost.Size()` later, the path after the padded address section, then extensions, L4 and payload without gaps |
| Spkt.LayoutAligned | go/border/rpkt/create.go:64-71 | the path and the extensions start on 8-byte line boundaries |
| Spkt.BuiltHdrLengths | go/border/rpkt/create.go:45-46 | when they fit their widths, the common header's total length is the packet's length and its header length counts the lines before the extensions |
| Rpkt.HdrPointers | go/border/rpkt/create.go:67-68 | for a canonical packet the info and hop pointers in lines are exactly the path offset plus `InfOff` and `HopOff` |
| Spkt.L4TagPlacement | go/border/rpkt/create.go:117-130 | the L4 tag sits in exactly one place: the last extension's next-header byte when there are extensions (and the common header names the first class), else the common header's next-header field |
| Spkt.ChainSlots | go/border/rpkt/create.go:72-82 | every recorded next-header slot of the written chain holds the class of the following extension (or the tail for the last) and its extension's type |
| Spkt.WireLength | go/border/rpkt/create.go:94-99 | the laid-out packet is exactly as long as the sum of its sections, the payload counted only behind an L4 header |
| Spkt.WireSections | go/border/rpkt/create.go:59-66 | the bytes at each recorded offset are the destination IA, source IA, destination host, source host and path |
| Spkt.CalcPadding | go/border/rpkt/create.go:64 | the padding is below the block size and zero exactly for an aligned length |
| Spkt.PaddingAligns | go/border/rpkt/create.go:64 | the padded address section is a whole number of lines |
| Spkt.ReversePath | go/border/rpkt/create.go:170 | the reversed path has the same length; it fails exactly for a non-empty path too short for an info and a hop field |
| Spkt.ReverseLinesTwice | go/border/rpkt/create.go:170 | reversing the hop lines twice restores them |
| Spkt.Reverse | go/border/rpkt/create.go:170 | destination and source are swapped and a path stays a path; it fails exactly when the path cannot be reversed |
| Spkt.HopAt | go/border/rpkt/create.go:191 | no hop field when the hop pointer lies before the path; otherwise the field decoded at the pointer, which lies inside the header and the slice |
| Rpkt.UpdateL4 | go/border/rpkt/create.go:154 | the L4 header keeps its type and bytes and records the payload length |
| Rpkt.PathOfWire | go/border/rpkt/create.go:166 | the path section of a laid-out canonical packet reads back as its path |
| Rpkt.ReadPath | go/border/rpkt/create.go:166 | a header end outside the slice or before the path is a format error; the path read is the slice between the path offset and the header end |
| Rpkt.L4Wired | go/border/rpkt/create.go:147-159 | the payload and common header written over the placed buffer give exactly the packet's wire image |
| Rpkt.NoL4Wired | go/border/rpkt/create.go:97-99 | without an L4 header, the chain image with the common header over it gives exactly the wire image |
| Rpkt.L4PlacedState | go/border/rpkt/create.go:105-136 | what `addL4` does to a buffer with laid-out extensions is the placed image, header and offsets of the layout |
| ExtnChain.AddExtn | go/border/rpkt/create.go:73 | adding one extension succeeds exactly when it fits behind the L4 offset and keeps the buffer's size |
| ExtnChain.AddExtnsState | go/border/rpkt/create.go:72-82 | adding the extensions one by one succeeds exactly when the chain up to the `k`th fits, and then leaves the chain written, the L4 offset behind it, its slots recorded and the header naming the first |
| ExtnChain.AddExtnsStaysNone | go/border/rpkt/create.go:73-75 | once an extension did not fit, no later step succeeds (the loop returns at the first failure) |
| ExtnChain.ChainStateEnd | go/border/rpkt/create.go:82 | after the last extension the whole chain is in place behind the header |
| RawBuf.Put | go/border/rpkt/create.go:61-62 | `copy` into the buffer writes exactly the given bytes at the offset and nothing else |
| RawBuf.PutAddrPath | go/border/rpkt/create.go:59-66 | the address section and path are written, each at its layout offset |
| RawBuf.WriteAtDef | go/border/rpkt/create.go:61 | a write replaces exactly the bytes it covers |
| RawBuf.HdrWrites | go/border/rpkt/create.go:59-66 | on a fresh buffer the five writes give the header image, the padding keeping its zeros |
| FlowtelePath.PathDescription.constructor | go/flowtele/path.go:15-18 | a new description has two empty lists |
| FlowtelePath.PathDescription.IsEmpty | go/flowtele/path.go:20-22 | empty exactly when both lists are empty |
| FlowtelePath.PathDescription.Set | go/flowtele/path.go:24-74 | the empty text gives two empty lists; a non-empty text makes both lists `2(n-1)` long for `n` hops; a single hop is an error; otherwise the lists or the error are what `Parse` reads; after an IA error the lists hold the entries of the hops before the failing one and zero IDs behind them; after a successful read, `IsEmpty` holds exactly when the text was empty |
| FlowtelePath.PathDescription.FillHops | go/flowtele/path.go:39-72 | the loop over the hops leaves the lists that all hops' entries make up, or stops with the error of the first hop whose IA does not parse, the hops before it written and the IDs behind them still zero |
| FlowtelePath.PathDescription.SetHop | go/flowtele/path.go:41-71 | one hop keeps the lists filled up to it, or reports the error of its IA as the error of the whole text |
| FlowtelePath.PathDescription.WriteHop | go/flowtele/path.go:62-71 | a hop writes its IA and in-ID, then its IA and out-ID, each only when present, from the running index |
| FlowtelePath.PathDescription.String | go/flowtele/path.go:76-94 | the builder loop produces `Render` of the lists: the placeholder below two IAs, else `IA id`, `>id ` pairs and the last IA |
| FlowtelePath.PathDescription.IsEqual | go/flowtele/path.go:96-106 | unequal when the IA counts differ, otherwise equal exactly when every IA and ID agrees |
| FlowtelePath.SameHopsReflexive | go/flowtele/path.go:96-106 | every description with enough IDs is equal to itself |
| FlowtelePath.HopCount | go/flowtele/path.go:43-57 | the first hop has only an out-ID, the last only an in-ID, an intermediate both, so the hops fill one, two, ..., one slots |
| FlowtelePath.PutHopPrefix | go/flowtele/path.go:62-71 | writing a hop over zero slots extends the filled prefix by exactly its entries and leaves the rest zero |
| FlowtelePath.HopFails | go/flowtele/path.go:58-61 | a hop whose IA does not parse is the error of the whole text |
| FlowtelePath.RenderWritten | go/flowtele/path.go:81-93 | the pieces of all positions followed by the last IA are the printed description |
| FlowteleRoundTrip.ParseRender | go/flowtele/path.go:24-94 | canonical lists print to a text that `Set` accepts and reads back into the same lists |
| FlowteleRoundTrip.ParseEmpty | go/flowtele/path.go:20-40 | lists read from a matching text are empty exactly when the text is, so `IsEmpty` after a successful `Set` tells the empty text apart |
| FlowteleRoundTrip.ParseCanonical | go/flowtele/path.go:24-94 | whatever `Set` reads from a matching text is canonical and prints to a text that reads back to it |
| FlowteleRoundTrip.RenderParse | go/flowtele/path.go:24-94 | a text `Set` accepts, each of whose IAs and IDs is spelled as `String` prints it, is printed back exactly from what `Set` reads |
| FlowteleRoundTrip.ParsePrint | go/flowtele/path.go:30-72 | printed texts of canonical lists split into matching hops that read back to the lists |
| FlowteleRoundTrip.EntriesShape | go/flowtele/path.go:39-72 | the entries read are `Filled(j)` long, each intermediate IA in two consecutive slots, every ID below 2^64 |
| Text.JoinSplit | go/flowtele/path.go:30 | splitting and joining again gives the text, with no separator inside a part |
| Text.SplitJoin | go/flowtele/path.go:30 | parts without the separator, joined and split again, are the parts |
| Text.ParseFormatUint | go/flowtele/path.go:64 | an ID below the limit printed in decimal parses back to itself |
| Addr.IAStringRoundTrip | go/flowtele/path.go:58 | a printed ISD-AS parses back to itself |
| Addr.IAStringSeparators | go/flowtele/path.go:83 | a printed ISD-AS holds no space and no `>` |
| Addr.MarshalIP | go/lib/crypto/cert/pila_cert.go:31-33 | the subject's text exists exactly for 0-, 4- and 16-byte addresses; it is empty only for the empty address and a dotted quad exactly for an IPv4 address |
| Addr.MarshalIPEqual | go/lib/crypto/cert/pila_cert.go:31-46 | two addresses, the first writable, have the same text exactly when `Eq` calls them the same IP |
| PilaCert.EntityEqReflexive | go/lib/crypto/cert/pila_cert.go:39-46 | every subject equals itself |
| PilaCert.EntityEqSymmetric | go/lib/crypto/cert/pila_cert.go:39-46 | subject equality is symmetric |
| PilaCert.EntityEqTransitive | go/lib/crypto/cert/pila_cert.go:39-46 | subject equality, with an IPv4 address equal to its IPv4-in-IPv6 form, is transitive |
| PilaCert.VerifyTime | go/lib/crypto/cert/pila_cert.go:165-177 | early usage exactly before the issuing time, expired exactly after the expiration time when not early, valid exactly in between with both bounds included |
| PilaCert.VerifyTimeInterval | go/lib/crypto/cert/pila_cert.go:165-177 | the instants a certificate is valid at form an interval |
| PilaCert.VerifyTimeEmptyWindow | go/lib/crypto/cert/pila_cert.go:165-177 | a certificate that expires before it is issued is never valid |
| PilaCert.SigPack | go/lib/crypto/cert/pila_cert.go:205-227 | it fails with ReservedVersion on version 0, otherwise with MarshalFailed exactly when the subject's address has no text; else it holds the twelve fields other than the signature, keyed in sorted order |
| PilaCert.SignatureNotSigned | go/lib/crypto/cert/pila_cert.go:209-221 | the signature is not among the signed fields |
| PilaCert.SigPackIgnoresSignature | go/lib/crypto/cert/pila_cert.go:204-227 | the signing input does not depend on any existing signature |
| PilaCert.SigPackBindsFields | go/lib/crypto/cert/pila_cert.go:209-221 | two certificates with the same signing input agree on every field but the signature and the subject, and their subjects are the same IP |
| PilaCert.SigPackSameFields | go/lib/crypto/cert/pila_cert.go:209-221 | certificates agreeing on every field but the signature, with subjects that are the same IP, have the same signing input (byte fields compared by their bytes, nil and empty being one value here; see "## Left out") |
| PilaCert.Signed | go/lib/crypto/cert/pila_cert.go:191-202 | it fails with the signing input's error when that cannot be built; otherwise it succeeds exactly when the signing primitive does, and then only the signature changes, to the primitive's result |
| PilaCert.VerifySignature | go/lib/crypto/cert/pila_cert.go:181-187 | a signing input that cannot be built fails as UnableSigPack with its cause; otherwise it is the verification primitive on the signing input and the signature |
| PilaCert.SignedVerifies | go/lib/crypto/cert/pila_cert.go:181-202 | with a primitive pair whose signatures verify, a certificate signed by `Sign` passes `VerifySignature` |
| PilaCert.Verify | go/lib/crypto/cert/pila_cert.go:152-161 | a wrong subject gives InvalidSubject whatever the time or signature; then a time error; then the signature check |
| PilaCert.VerifyAccepts | go/lib/crypto/cert/pila_cert.go:152-161 | a certificate verifies exactly when the subject matches, the time is inside the window, the version is not 0, the subject's address has a text and the signature verifies |
| PilaCert.EqFieldwise | go/lib/crypto/cert/pila_cert.go:261-275 | `Eq` holds exactly when all fields but the subject are identical (byte fields by content) and the subjects are equal as addresses |
| PilaCert.EqReflexive | go/lib/crypto/cert/pila_cert.go:261-275 | every certificate is `Eq` to itself |
| PilaCert.EqSymmetric | go/lib/crypto/cert/pila_cert.go:261-275 | `Eq` is symmetric |
| PilaCert.EqTransitive | go/lib/crypto/cert/pila_cert.go:261-275 | `Eq` is transitive |
| PilaCert.CopyBytes | go/lib/crypto/cert/pila_cert.go:238-246 | a freshly allocated slice with the same bytes |
| PilaCert.PilaCertificate.constructor | go/lib/crypto/cert/pila_cert.go:109-136 | the certificate holds the given fields and shares the given byte slices |
| PilaCert.PilaCertificate.FromValue | go/lib/crypto/cert/pila_cert.go:118-134 | a certificate with fresh byte slices holding the given value |
| PilaCert.PilaCertificate.Sign | go/lib/crypto/cert/pila_cert.go:191-202 | on failure the error is returned and the certificate is unchanged; on success only the signature changes, to a fresh slice with the primitive's signature |
| PilaCert.PilaCertificate.Copy | go/lib/crypto/cert/pila_cert.go:229-248 | the copy is a new certificate with fresh signature and key slices, the same value and `Eq` to the original (nil slices being empty ones here; see "## Left out") |
| PilaCert.Admit | go/lib/crypto/cert/pila_cert.go:138-147 | an undecodable text fails to parse, a decoded version 0 is ReservedVersion, and anything else is accepted as decoded |
| PilaCert.AdmittedSignable | go/lib/crypto/cert/pila_cert.go:143-145 | an accepted certificate can be packed for signing exactly when its subject's address has a text |
| PilaCert.FromRaw | go/lib/crypto/cert/pila_cert.go:138-147 | no certificate and the error on a rejected text; otherwise a fresh certificate holding the decoded value |
| PilaCert.ChainVerify | go/lib/crypto/cert/pila_cert.go:79-102 | a failing leaf/issuer check is returned first, then a leaf algorithm other than Ed25519 is refused, then the endpoint is verified with the leaf's key |
| PilaCert.ChainVerifyAccepts | go/lib/crypto/cert/pila_cert.go:79-102 | a chain verifies exactly when the leaf/issuer check passes, the leaf signs with Ed25519 and the endpoint verifies under the leaf's key |
| CertSrvPila.SignAlgorithmFor | go/cert_srv/pila.go:111-117 | a 64-byte key gives ECDSAP256SHA256, a 96-byte key ECDSAP384SHA384, and every other length the empty name |
| CertSrvPila.PrepareCertificate | go/cert_srv/pila.go:102-135 | issued now and expiring 3600 s later (a 64-bit sum), cannot issue, version 1, issuer the requester's IA, subject the requested address, comment the signed name, the request's key and its algorithm, the newest TRC version, no signature and no encryption key |
| CertSrvPila.PreparedValidity | go/cert_srv/pila.go:104-110 | away from the 64-bit limit, a prepared certificate is valid exactly from now to now + 3600, both included |
| CertSrvPila.PreparedWrapped | go/cert_srv/pila.go:110 | within an hour of the 64-bit limit the expiration wraps and the certificate is never valid |
| CertSrvPila.PreparedSignable | go/cert_srv/pila.go:134 | a prepared certificate can be packed for signing exactly when the request names an IPv4 address or a 4- or 16-byte IPv6 one, and always past the address gate from a well-formed source host |
| CertSrvPila.PreparedSubjectIsSource | go/cert_srv/pila.go:118-129 | past the address gate, the subject equals the requester's source address |
| CertSrvPila.CanAuthenticateIP | go/cert_srv/pila.go:141-144 | every address is accepted |
| CertSrvPila.SignCertificate | go/cert_srv/pila.go:86-91 | the certificate is signed in place with the AS's key and the algorithm of the newest chain's leaf, as `Sign` says |
| CertSrvPila.CombineCertificates | go/cert_srv/pila.go:93-100 | the chain's endpoint is the given certificate and its leaf and issuer are the newest stored chain's |
| CertSrvPila.HandleReq | go/cert_srv/pila.go:42-84 | no address named is its own outcome; a source address that differs from the requested one issues nothing; the authentication gate never refuses; otherwise signing fails with the signer's error or the reply is a chain with a fresh endpoint holding the signed prepared certificate and the newest chain's leaf and issuer |
| CertSrvPila.IssuedVerifies | go/cert_srv/pila.go:42-135 | with a primitive pair whose signatures verify, an issued certificate verifies for the requester's address at every instant of its hour |
| CertMgmt.Host | go/lib/ctrl/cert_mgmt/pila_req.go:38-46 | none exactly when both address lists are empty; an IPv4 host exactly when IPv4 bytes are present; else an IPv6 host; the bytes are taken as they are |
| CertMgmt.HostPrefersIPv4 | go/lib/ctrl/cert_mgmt/pila_req.go:39-41 | with IPv4 bytes present, the IPv6 bytes do not matter |
| CertMgmt.HostFallsBackToIPv6 | go/lib/ctrl/cert_mgmt/pila_req.go:42-44 | without IPv4 bytes, the IPv6 bytes give an IPv6 host |
| CertMgmt.ProtoId | go/lib/ctrl/cert_mgmt/pila_req.go:58-60 | a request always travels as a PILA certificate request |

## Left out

- Collaborators of `go/border/rpkt/create.go` that are not part of this model get stand-in definitions with contracts, and the rows above are only as faithful as these stand-ins:
  - the extension writers (`extnAddHBH`/`extnAddE2E`): an extension is a type byte plus the bytes its `Write` produces;
  - `l4.L4Header.Write`, `Payload.WritePld` and `updateL4`;
  - `CmnHdr.Write`: the field layout is written out, but the bit packing of the first word is not checked against the `spkt` header encoder, which is not part of this model;
  - `RtrPkt.ToScnPkt`, `ScnPkt.Reverse` and `Path.Reverse`: a line-wise reversal that keeps the info line;
  - `RtrPkt.HopF`, `InfoF`, `ConsDirFlag`, `IFCurr` and `DstIA`.
- Rpkt.RtrPkt.IncPath: modelled as a counter of advancements. The pointer arithmetic of the real `IncPath` is not modelled.
- `InfoF()` and `ConsDirFlag()` are called in `CreateReply` with their results discarded, so they are not modelled.
- `TimeIn`, `Id` and `Logger` of a new packet (`go/border/rpkt/create.go:37-39`): clock, randomness and logging.
- The buffer capacity (`PktBufSize`, 9 KiB) is a constant of the model, because the packet allocation code is not part of this model. It is below 65536, so the 16-bit `TotalLen` is exact for every packet that fits.
- Rpkt.RtrPktFromScnPkt: requires the common header, address section and path to fit the buffer, and requires host bytes as long as their type says. Without these the Go slicing panics rather than returning an error. It also requires (through `ScnPkt.WellFormed`) a path of whole 8-byte lines. Go accepts any path length: the header length in lines truncates (`go/border/rpkt/create.go:36`) and the L4 header is then placed at that truncated offset (`go/border/rpkt/create.go:71`), over the path's tail.
- Rpkt.RtrPkt.CreateReply: requires the reply's header to fit the buffer, as RtrPktFromScnPkt does. It also requires a valid local-socket index for a packet from the local AS and, when the current interface is known, a configured interface. Otherwise the Go slice lookup in `replyEgress` panics and its map lookup gives a zero interface. Like RtrPktFromScnPkt, it requires a path of whole 8-byte lines, so a reply over a path of any other length is not covered.
- FlowtelePath.PathDescription.Set: requires every hop to match its regular expression (`InputMatches`), because a non-matching hop makes the Go code index a nil match and panic. The regular expressions become a split on spaces with decimal-digit checks.
- FlowtelePath.PathDescription.IsEqual: requires enough IDs for the IAs compared, because the Go loop would index past a shorter ID list and panic.
- FlowtelePath.PathDescription.String: requires at least as many IDs as IAs, for the same reason.
- `NewScionPathDescription`, `readPaths`, `go/flowtele/socket.go` and the D-Bus code: path lookups, file and network I/O.
- JSON encoding and decoding (`sigPack`'s `json.Marshal`, `JSON()`, `PilaCertificateFromRaw`'s `json.Unmarshal`, `PilaChainFromRaw`): the signing input is the sorted list of field names and values, and decoding is a parameter.
- Cryptography (`crypto.Sign`, `crypto.Verify`, `ChainFromSlice` and chain verification against the TRC): function-valued parameters.
- `time.Now` in `Verify` and `prepareCertificate` is a `now` parameter.
- The configuration store (`GetSigningKey`, `GetNewestChain`, `GetNewestTRC`) is a record of functions.
- CertSrvPila.HandleReq: the send of the reply (`sendRepPilaChain`) and the logging are not modelled; the outcome stands for the chain that would be sent.
- The error branches of `prepareCertificate` (parsing the constant "3600s") and `combineCertificates` never occur, so they are not modelled. A nil chain from the store is not modelled either.
- CertSrvPila.HandleReq: a request naming no address is the outcome `NoEndpoint`, where the Go handler panics on a nil interface. The requester's own address is always present.
- PilaCert.PilaCertificate.Copy: the subject's IP slice is shared in Go and modelled as a value, so aliasing through it is not captured.
- PilaCert.PilaCertificate.Copy: Go's copy builds each byte slice with `make` (pila_cert.go:238-246), so a nil slice becomes an empty one. The JSON encoder then writes `""` where the original had `null`, so the copy has a different signing input. A certificate issued by `prepareCertificate`, whose `SubjectEncKey` is nil (pila.go:131), therefore stops verifying once copied. The model has no nil slices, so its copy has the same value and still verifies.
- PilaCert.SigPack: nil and empty byte slices are one value, whereas Go's encoder writes `null` for one and `""` for the other (pila_cert.go:218-222). `SigPackBindsFields` and `SigPackSameFields` hold only up to that identification.
- PilaCert.SigPack: strings are Unicode text. Go's encoder replaces invalid UTF-8 in `Comment`, `SignAlgorithm` and `EncAlgorithm` with U+FFFD, so two comments that differ only in invalid bytes give the same signing input. `SigPackBindsFields` does not capture this, because the model's strings cannot hold such bytes.
- `PublicKeyBase64`, the `String()` formatters and `pila_rep.go`: text formatting and JSON wrapping only.
- Addr.MarshalIP: the dotted-quad and IPv6 texts `net.IP.String` prints are not written out. A text is represented by its form: nothing, the 4-byte IPv4 form, or the 16 bytes. `net.IP.String` prints distinct forms as distinct texts, and the model takes that as given.
- `PilaCertificateEntity.UnmarshalText`: reading the subject back is part of the JSON decoder, which is a parameter.
