# Federated XOR key-share node, modelled in Dafny

This project models a small federated edge-security prototype. A master key
is split into two 16-byte shares whose xor is the master. Each node
container holds one share in `share.txt`. A node serves its own share at
`/send-share` as lower-case hex. At `/request-and-reconstruct` it pulls the
shares of its configured neighbours in order, adds its own, xors the first
two, derives a Fernet key from the result and decrypts the secure
partition. An in-memory record (`has_share`, `share_sent`, `share_received`,
`can_reconstruct`) tracks what the node has done and is reported at
`/federation-status`. Two provisioning scripts produce the shares:
`key_generator_for_containers.py` (two shares plus `master_key.txt`) and
`key_generator.py` (a three-share prototype).

Modules, one per file:

- `Wrappers` (`wrappers.dfy`): `Option`.
- `Bytes` (`bytes.dfy`): bytes as an integer newtype, integer `^` bit by bit, and the `xor` helper the three scripts share.
- `PyText` (`pytext.dfy`): the pieces of Python `str` the node uses (`strip`, `rstrip("/")`, `split(",")`).
- `Hex` (`hex.dfy`): `binascii.hexlify` and `binascii.unhexlify`, where unhexlify fails with `None`.
- `NodeConfig` (`node_config.dfy`): `NODE_NAME`, the `NEIGHBORS` parsing and each neighbour's `/send-share` URL.
- `ShareStore` (`share_store.dfy`): `read_share` over the share file's text, which is `None` when the file is missing.
- `ShareExchange` (`share_exchange.dfy`): the `/send-share` answer, the requester's decode of one reply, and the gather loop. The gather is a method proved against the recursive `Gather` specification.
- `Reconstruction` (`reconstruction.dfy`): the quorum check, xor of the first two shares, key derivation and decrypt outcome.
- `Federation` (`federation.dfy`): `status_state` as the class `Node`, with the three handlers that change it as methods.
- `ContainerKeys` (`container_keys.dfy`): `key_generator_for_containers.py`, and how `master_key.txt` is read back.
- `KeyGenerator` (`key_generator.dfy`): `key_generator.py`.
- `Deployment` (`deployment.dfy`): the end-to-end run. The provisioned files are served, gathered and combined, and the result decrypts the partition.

The model's inputs stand for the outside world:

- the share file's text is a `Option<string>`;
- each neighbour's HTTP reply is a `Reply`, either `Answered(status, share)` or `Failed`;
- the partition file's bytes are an `Option<Bytes>`;
- a bool says whether `/secure/data.txt` can be written;
- the random 16-byte draws of the scripts are parameters;
- `sha256`, `urlsafe_b64encode` and `Fernet.decrypt` are function-valued fields of a `Crypto` value. Decrypt returns `None` where it raises.

## Model

| member | source | states |
|---|---|---|
| Bytes.Xor | node3/app.py:62-63 | the result is as long as the shorter input, and byte `i` is `a[i] ^ b[i]` |
| Bytes.XorTruncates | node3/app.py:62-63 | the longer input's excess is ignored: xor equals xor of the common-length prefixes |
| Bytes.XorCommutes | key_generator_for_containers.py:6-7 | `xor(a, b) == xor(b, a)` |
| Bytes.XorCancels | key_generator.py:5-6 | xor-ing twice with the same (at least as long) operand gives back the first, from either side |
| Bytes.BitXorBound | node3/app.py:63 | `x ^ y` of two values below 2^n is below 2^n, so the xor of two bytes is a byte |
| Bytes.BitXorCommutes | node3/app.py:63 | the bitwise `^` is commutative |
| Bytes.BitXorCancels | node3/app.py:63 | `(x ^ y) ^ y == x` for `x` below 2^n |
| Bytes.BitXorSelf | node3/app.py:63 | `x ^ x == 0` |
| Bytes.BitXorZero | node3/app.py:63 | `x ^ 0 == x` for `x` below 2^n |
| Bytes.XorByte | node3/app.py:63 | `x ^ y` of two bytes is a byte; it is zero for equal bytes and `x` when `y` is zero |
| PyText.StripLeft | node3/app.py:53 | `lstrip` never lengthens its input, and leaves an empty text or one starting with a non-space (full description in StripLeftShape) |
| PyText.StripRight | node3/app.py:53 | `rstrip` never lengthens its input, and leaves an empty text or one ending with a non-space (full description in StripRightShape) |
| PyText.Strip | node3/app.py:53 | `strip` never lengthens its input (full description in StripShape and StripPadded) |
| PyText.RStripChar | node3/app.py:118 | `rstrip("/")` never lengthens its input, and leaves a text not ending in `/` (full description in RStripCharShape) |
| PyText.StripLeftShape | node3/app.py:53 | `lstrip` leaves a suffix, drops only whitespace, and leaves an empty text or one starting with a non-space |
| PyText.StripRightShape | node3/app.py:53 | `rstrip` leaves a prefix, drops only whitespace, and leaves an empty text or one ending with a non-space |
| PyText.StripShape | node3/app.py:17 | `strip` gives a text with no whitespace at either end, and the input is that text padded with whitespace |
| PyText.StripPadded | node3/app.py:53 | `strip` of a stripped text with any whitespace padding on both sides returns exactly that text |
| PyText.RStripCharShape | node3/app.py:118 | `rstrip("/")` leaves a prefix, drops only `/`, and leaves a text not ending in `/` |
| PyText.SplitComma | node3/app.py:17 | `split(",")` gives at least one part, no part holds a comma, and joining the parts with commas gives the input back |
| PyText.SplitJoin | node3/app.py:17 | splitting a comma-join of comma-free parts gives those parts back, in order |
| Hex.DigitValue | node3/app.py:57 | each hex digit of either case has a value below 16 |
| Hex.LowerDigit | node3/app.py:105 | each nibble is written as a lower-case hex digit |
| Hex.HexByte | node3/app.py:105 | a byte is written as two lower-case hex digits |
| Hex.Hexlify | node3/app.py:105 | `hexlify` writes two lower-case hex digits per byte |
| Hex.Unhexlify | node3/app.py:57 | `unhexlify` succeeds exactly on even-length text made only of hex digits of either case, and yields one byte per pair of digits |
| Hex.NibblesRejoin | node3/app.py:105 | the two digits written for a byte spell that byte again |
| Hex.HexRoundTrip | node3/app.py:105-123 | `unhexlify(hexlify(b)) == b` for every byte string |
| Hex.PairDigits | node3/app.py:105 | two lower-case digits are exactly what `hexlify` writes for the byte they spell |
| Hex.LowerChar | node3/app.py:57 | lower-casing a character keeps it a hex digit exactly when it was one, with the same value |
| Hex.UnhexlifyIgnoresCase | node3/app.py:57 | `unhexlify` gives the same result on a text and on its lower-case form: upper- and lower-case digits decode alike |
| Hex.HexRoundTripText | node3/app.py:105-123 | lower-case hex text decodes, and hexlifying the result gives the same text back |
| NodeConfig.NodeName | node3/app.py:15 | `NODE_NAME` is the variable's value when set, otherwise `"Node"` |
| NodeConfig.CleanEntries | node3/app.py:17 | the comprehension never yields more entries than there are parts (order: CleanEntriesAppend, CleanEntriesOne) |
| NodeConfig.CleanEntriesAppend | node3/app.py:17 | the comprehension keeps order: over `a + b` it gives its result over `a` followed by its result over `b` |
| NodeConfig.CleanEntriesHead | node3/app.py:17 | the first part's contribution comes ahead of the rest's |
| NodeConfig.CleanEntriesOne | node3/app.py:17 | one part contributes its stripped form, or nothing when that is blank |
| NodeConfig.ParseNeighbors | node3/app.py:16-17 | `NEIGHBORS` is the comprehension over the comma-split of the variable, `""` when unset (properties in the lemmas below) |
| NodeConfig.ParseNeighborsCons | node3/app.py:16-17 | the first comma-separated part contributes its stripped form, when non-blank, ahead of every neighbour the rest of the string gives |
| NodeConfig.CleanEntriesMembers | node3/app.py:17 | an address is a neighbour exactly when it is the stripped form of some comma-separated part and is non-blank |
| NodeConfig.StripKeepsChars | node3/app.py:17 | stripping keeps only characters of the original text |
| NodeConfig.NeighborsAreClean | node3/app.py:16-17 | every neighbour is non-blank, has no surrounding whitespace and no comma, and every non-blank part of the split is kept |
| NodeConfig.CleanEntriesOfClean | node3/app.py:17 | the comprehension leaves a list of clean entries unchanged, in order |
| NodeConfig.NeighborsRoundTrip | node3/app.py:16-17 | a comma-join of clean addresses parses back to exactly that list, in order |
| NodeConfig.NoNeighborsWhenBlank | node3/app.py:16-17 | an unset or all-whitespace `NEIGHBORS` gives no neighbours |
| NodeConfig.LoadConfig | node3/app.py:15-17 | the configuration read at start-up: every neighbour it lists is non-blank, has no surrounding whitespace and no comma |
| NodeConfig.SendShareUrl | node3/app.py:118 | the URL asked of neighbour `n` is `n.rstrip("/") + "/send-share"` (property in SendShareUrlSlashes) |
| NodeConfig.SendShareUrlSlashes | node3/app.py:118 | an address with any number of trailing slashes is asked at the same URL as without them: the address plus `/send-share` |
| ShareStore.ReadShare | node3/app.py:50-59 | a share it returns is never empty, so "present" and "truthy" agree on its results |
| ShareStore.ReadShareAccepts | node3/app.py:50-59 | a share comes back exactly when the file exists and its stripped text is non-blank hex: missing, blank and non-hex (odd length or a non-hex digit) all give `None`; the share has one byte per two digits |
| ShareStore.HexIsStripped | node3/app.py:105 | hex text has no whitespace at its ends |
| ShareStore.ReadHexShareFile | node3/app.py:50-59 | a file holding the hex of a non-empty share, with any whitespace around it, reads back as that share |
| ShareStore.ReadBlankShareFile | node3/app.py:53-55 | an all-whitespace file reads as no share |
| ShareExchange.ShareReply | node3/app.py:98-108 | `/send-share` answers 200 exactly when the share is truthy, and then its share field is the lower-case hex of the share; otherwise it answers 404 with no share field |
| ShareExchange.DecodeReply | node3/app.py:119-123 | a share comes from a reply exactly when the status was 200 and the share field is valid hex; failures, other statuses and malformed fields give nothing |
| ShareExchange.ShareExchangeRoundTrip | node3/app.py:100-123 | what one node serves, the requesting node decodes to the same bytes; a node without a share gives nothing |
| ShareExchange.Decoded | node3/app.py:116-123 | one decoded result per reply |
| ShareExchange.DecodedAt | node3/app.py:116-123 | each reply is decoded on its own, independently of the others |
| ShareExchange.SuccessesHold | node3/app.py:121-124 | every position listed as a success holds a decodable reply |
| ShareExchange.SuccessesIncrease | node3/app.py:116 | the successes are listed in strictly increasing neighbour order |
| ShareExchange.SuccessesComplete | node3/app.py:121-124 | every decodable reply is listed as a success |
| ShareExchange.GatherLength | node3/app.py:116-124 | the gather keeps one entry per successful neighbour |
| ShareExchange.GatherShares | node3/app.py:123 | the `k`-th kept share is the share decoded from the `k`-th successful reply |
| ShareExchange.GatherSources | node3/app.py:124 | the `k`-th recorded sender is the neighbour of the `k`-th successful reply |
| ShareExchange.GatherSelects | node3/app.py:116-124 | together: the gather keeps the successful neighbours in neighbour order, each with its own share, so shares and senders line up one to one |
| ShareExchange.Gather | node3/app.py:116-124 | the gather loop as a recursion over the neighbours: never more entries than neighbours (properties in the Gather and Successes lemmas) |
| ShareExchange.GatherSnoc | node3/app.py:116-124 | one more neighbour adds exactly that neighbour's turn at the end |
| ShareExchange.GatherPrefix | node3/app.py:116-124 | the gather over the first `i + 1` neighbours is the gather over the first `i` plus neighbour `i`'s turn |
| ShareExchange.GatherPrefixViews | node3/app.py:123-124 | one turn appends the decoded share and its neighbour, or nothing |
| ShareExchange.GatherFromNeighbors | node3/app.py:124 | only configured neighbours are recorded as senders |
| ShareExchange.GatherNothing | node3/app.py:116-128 | when no reply decodes, nothing is gathered |
| ShareExchange.GatherEverything | node3/app.py:116-124 | when every neighbour returns a share, the gather holds one share per neighbour, in order |
| ShareExchange.AllShares | node3/app.py:130-134 | the shares combined are the gathered ones, unchanged and first, followed by the own share exactly when it is truthy |
| ShareExchange.UrlsAsked | node3/app.py:116-118 | one URL per neighbour, in neighbour order, each `n.rstrip("/") + "/send-share"` |
| ShareExchange.FetchShares | node3/app.py:113-128 | the loop asks exactly those URLs; the shares it appends and the senders it records are the gather of the decoded replies |
| Reconstruction.StatusCode | node3/app.py:136-169 | 200 exactly on a decrypt; 400 exactly when there are not enough shares; 500 exactly when the partition is missing or decryption fails |
| Reconstruction.FernetKey | node3/app.py:144 | the Fernet key is `urlsafe_b64encode(sha256(master).digest())`, with both library calls left uninterpreted |
| Reconstruction.Reconstruct | node3/app.py:136-169 | "not enough shares" exactly when there are fewer than 2, carrying the count; "partition not found" exactly when there is a quorum and no partition file |
| Reconstruction.ReconstructDecrypts | node3/app.py:140-165 | it decrypts exactly when there is a quorum, a partition that decrypts under the key derived from the xor of the first two shares, and a writable output; the plaintext is what `decrypt` returned |
| Reconstruction.ReconstructUsesFirstTwo | node3/app.py:140 | shares beyond the first two never change the outcome |
| Reconstruction.ReconstructEitherOrder | node3/app.py:140 | swapping the first two shares never changes the outcome |
| Reconstruction.ReconstructRecoversMaster | node3/app.py:140-165 | two shares whose xor is the master decrypt a partition encrypted under the master's Fernet key |
| Federation.Node.constructor | node3/app.py:15-33 | a started node has the configured name and neighbours and an empty `status_state` |
| Federation.Node.FederationStatus | node3/app.py:81-95 | `has_share` becomes "a share is present"; `can_reconstruct` becomes `len(share_received) + own >= 2`; both logs are unchanged; the report is the new state |
| Federation.Node.SendShare | node3/app.py:98-108 | the reply is ShareReply of the share file; with a share, exactly the node's own name is appended to `share_sent`; nothing else changes |
| Federation.Node.PullShares | node3/app.py:113-128 | the shares gathered are the gather of the replies; `share_received` grows by exactly their senders, in the same order; only neighbours are recorded |
| Federation.Node.IncludeOwnShare | node3/app.py:130-134 | a truthy own share goes after every neighbour share and sets `has_share`; otherwise nothing changes |
| Federation.Node.RequestAndReconstruct | node3/app.py:111-169 | asks every neighbour's URL, keeps the gathered senders in `share_received` whatever the outcome, leaves `share_sent` alone, and ends with Reconstruct of the gathered shares followed by the own share; `can_reconstruct` is set only on a decrypt, and after a decrypt the `/federation-status` quorum formula holds of the new state |
| Federation.DecryptedHadQuorum | node3/app.py:136-163 | a decrypt implies that the gathered shares plus the own share reach the quorum of 2 |
| ContainerKeys.Provision | key_generator_for_containers.py:10-22 | 16-byte shares give a 16-byte master, and each file holds 32 hex digits |
| ContainerKeys.ReadMasterKeyFile | make_secure_partition_with_master.py:9-10 | reading `master_key.txt` succeeds exactly when its stripped text is hex |
| ContainerKeys.MasterKeyFileRoundTrip | key_generator_for_containers.py:22 | the master-key file as written reads back as the master |
| ContainerKeys.ShareFileRoundTrip | key_generator_for_containers.py:19-20 | a share file as written reads back through `read_share` as the share |
| ContainerKeys.ProvisionedFilesRead | key_generator_for_containers.py:19-22 | both share files read back as `s2` and `s3`, and `master_key.txt` as `xor(s2, s3)` |
| ContainerKeys.ProvisionSplits | key_generator_for_containers.py:13 | the master xor either share gives the other one, and `xor(s3, s2)` is the master too |
| KeyGenerator.GenerateShares | key_generator.py:9-24 | three 16-byte shares, the first two as drawn and the third their xor, appended last; the recovered value equals the third share; any two of the shares give the remaining one; every output is fixed by the two draws, whatever master was printed |
| Deployment.GatherOneShare | node3/app.py:116-124 | asking one neighbour that serves a non-empty share gathers exactly that share |
| Deployment.NodesCombineMaster | key_generator_for_containers.py:13-28 | node3 asking node2 combines `[s2, s3]`, node2 asking node3 combines `[s3, s2]`, and both xors equal the master read back from `master_key.txt` |
| Deployment.NodesDecryptPartition | node3/app.py:140-165 | if the partition was encrypted under the key derived from `master_key.txt`, both nodes decrypt it to the same plaintext |
| Deployment.Node3Reconstructs | node3/app.py:15-169 | node3, started with `NEIGHBORS` set to node2's clean address, and node2, started with `NEIGHBORS` unset, are configured through the start-up parsing; node2 serves its share file, node3 asks node2's URL once, and its handler decrypts the partition |

## Left out

- Flask routing, JSON encoding and HTTP plumbing are not modelled. A neighbour's reply is a `Reply` value, and a handler's answer is a value.
- `requests.get` and its 5-second timeout are not modelled. A refused or timed-out request is `Failed`.
- File I/O is not modelled. File contents are inputs, and the write of `/secure/data.txt` is a bool saying whether it succeeds.
- Text decoding is not modelled. The share file is given as already-decoded characters or `None`, and the partition as bytes or `None`. A file that exists but cannot be opened or read is not modelled: a directory, missing permission, or text that is not UTF-8. In the source such a share file makes `open(...).read()` (node3/app.py:53) raise outside any `try`, so every handler answers 500. Such a partition passes the existence check (node3/app.py:150) and then raises inside the `try` (node3/app.py:155), which answers "decrypt failed" whatever the key.
- `log()` (timestamps, the log file, `app.logger`) is not modelled. It does not affect the federation state.
- Fernet, `sha256` and `urlsafe_b64encode` are library code. They are uninterpreted functions, so whether a key is correct rests entirely on `decrypt`'s answer.
- `secrets.token_bytes` is not modelled. Its draws are 16-byte parameters.
- `/join` and `/status` are not modelled. They touch no state: one only logs, the other returns fixed text.
- The dashboard is not modelled. It polls the nodes over HTTP and renders HTML.
- `make_secure_partition.py` is not part of this model.
- The encryption in `make_secure_partition_with_master.py` is not modelled, only how it reads `master_key.txt`.
- Concurrency is not modelled: each handler is taken as one atomic step. This is an assumption of the model. Flask's development server handles requests on threads, and each neighbour can block the gather for 5 seconds or more: `timeout=5` bounds the connect and each wait between received bytes, not the whole request, and name lookup has no bound. So in the source a concurrent `/federation-status` can see `share_received` half-grown.
- Federation.Node.RequestAndReconstruct: its `share_sent` is unchanged only under the one-step assumption. A node listed among its own neighbours would serve itself during its own gather and grow `share_sent`.
- The printing in the two scripts is left out.
- Federation.Node.PullShares: a neighbour is recorded in `share_received` when the loop finishes, not as each reply arrives. The two differ only when another request runs at the same time, which the one-step assumption excludes.
- Four behaviours of the source that the model keeps as they are:
  - `read_share` accepts a share of any even number of hex digits, not only 32 (node3/app.py:57).
  - `share_sent` records the serving node's own name, not the requester's (node3/app.py:106).
  - The quorum of 2 counts shares, duplicates included (node3/app.py:136).
  - `request_and_reconstruct` never recomputes `can_reconstruct` from the quorum formula after the gather. It only sets it on a decrypt (node3/app.py:163).
