# Succinct: verified models of its synchronisation, compression and storage code

This project models five parts of the native code under `app/src/main/cpp` and proves what they are
there for. `dafny verify dfyconfig.toml` checks all of it.

**Set synchronisation** (`sync_keys.cpp`). Replicas of a set of 64-bit keys exchange summaries of a
path-compressed binary trie in which an inner node holds the common prefix of its leaves and the xor of
their remaining bits. `SyncKey`, `SyncTrie` and `SyncSearch` define tries as values; `SyncPeer` and
`SyncReceive` define what is recorded about a peer and how one message is processed; `SyncSafety`,
`SyncNetwork`, `SyncExact` and `SyncReply` prove what holds after one message, in every run over a network that
drops, repeats and reorders, and what messages achieve. `SyncTree` and `SyncState` carry all of it out
in place, on linked nodes with parent-to-child pointers, and are proved against those functions.

The source compares summaries partially (`cmp_message` skips the bits between the shorter prefix and
the longer one) and searches for full keys in a trie of summaries, so that a summary of several keys can
be taken for a key. The model keeps this behaviour. An outcome is *confused* where that does harm: the
source would hand `remove_key` a key that is not there, or record a summary that is not a key of ours as
one. `SyncConfusion` gives the exact condition for each operation, on the nodes of the tries at hand;
safety is proved for every run none of whose steps meets it, and for every message that does not.
`SyncRemoval` shows what `remove_key` does with a key that is not there: an assertion stops it, or the
leaf of another key goes. A condition on the set of keys alone would exclude all large sets, since among
more than 64 keys some are the xor of others. `SyncIndexed` has a family of keys in which no summary stands
for the next key at any size up to 2 to the power of 32; `SyncRuns` has a run over it, and a run of five
keys that is confused. The source never inspects the last bit of a key (an assertion stops it), so two keys
in play must differ before it, and the prefix length of an incoming summary must not be 63.

**Range coder and text compression** (`forms/arithmetic.c`, `gsinterpolative.c`, `smac.c`,
`lowercasealpha.c`, `case.c`, `nonalpha.c`). `RangeModel`, `RangeConclude` and `RangeScript` describe
the arithmetic coder as a channel: a script of symbols, each with a table that may depend on everything
before it, comes out as it went in, whatever bits follow the conclusion. `RangeCoder` is the coder with
its 32-bit interval, underflow count and bit buffer, proved against that channel. `Interpolative` codes
sorted lists over it; `NonAlpha`, `LowerCaseAlpha`, `CaseModel` and `Smac` are the text model, up to the
round trip of whole messages. The comment in `range_conclude` that two bits always suffice is not what
the code does; `TwoBitsSuffice` says when they do, `TwoBitsMayNotDo` has a run after which they do not,
and `ManyBitsNeeded` a normalised state that takes 31, which is always enough.

**Hash table** (`expat/xmlparse.c`), **ID lists** (`lmdb/midl.c`), **SHA-256 and commits** (`hash.c`,
`storage.cpp`). `HashTable` refines a map for any hash function. `IdList` sorts, searches and merges in
place. `Sha256Spec` states FIPS 180-4, `Sha256Constants` and `Sha256Abc` prove its constants from the first
primes and one whole digest from its definitions, `Sha256` proves the incremental implementation against it,
and `Storage` proves what the stored hashes, the root hash and the index stand for after any mix of appends and
successful or failed flushes through any number of open files.

## Model

| member | source | states |
|---|---|---|
| `SyncNetwork.EveryRunIsSafe` | app/src/main/cpp/sync_keys.cpp:314-336 | A run of any number of replicas that start from nothing, add keys, send roots and deliver any packet ever sent any number of times is confused exactly if some step, in the state reached by those before, has a summary in a trie at hand taken for a key that is not there (`ConfusesAt`). After any other run every stored leaf of a peer trie is an own key, every other leaf a key that the peer holds and we lack, both counters count them, and `has` fires, for any packet that does not confuse, only for a key that the sender holds and the receiver lacks |
| `SyncNetwork.RunConfused` | app/src/main/cpp/sync_keys.cpp:105-129 | A run from any good state ends confused exactly if some step of it confuses, in the state reached by the steps before |
| `SyncNetwork.NextConfused` | app/src/main/cpp/sync_keys.cpp:314-336 | A step confuses exactly if it adds a new key for which a summary of some peer trie that lacks the key stands, or delivers a message that confuses its receiver |
| `SyncNetwork.AddOwnKeyExact` | app/src/main/cpp/sync_keys.cpp:314-336 | `sync_add_key` adds the key exactly if it is not there and no summary of our own trie stands for it; a key for which one does is lost |
| `SyncNetwork.DroppedConfused` | app/src/main/cpp/sync_keys.cpp:328-335 | A peer trie loses exactly the new key, also when it is found through a summary, unless the trie lacks the key and one of its summaries on the way compares equal to it |
| `SyncNetwork.StepKeeps` | app/src/main/cpp/sync_keys.cpp:531-746 | Every step of the network that does not confuse keeps the global invariant (tries well formed, records true and counted, keys in packets held by their senders) and no replica forgets a key |
| `SyncNetwork.AddKeyKeeps` | app/src/main/cpp/sync_keys.cpp:314-336 | Adding a key to one replica, which takes it out of the records about all peers, unless that confuses, keeps the global invariant |
| `SyncNetwork.DeliverKeeps` | app/src/main/cpp/sync_keys.cpp:531-746 | Receiving any packet that was ever sent, unless it confuses, keeps the global invariant |
| `SyncNetwork.CallbacksAreTrue` | app/src/main/cpp/sync_keys.cpp:385-446 | In any state that satisfies the invariant, for any packet that does not confuse, `has` reports a key the sender holds and we lack, and `has_not` and `now_has` report keys of ours |
| `SyncNetwork.DroppedOK` | app/src/main/cpp/sync_keys.cpp:328-335 | When a key becomes ours, its removal from a peer trie, unless it confuses, keeps that record true and counted for the larger key set |
| `SyncSafety.RecvKeySafe` | app/src/main/cpp/sync_keys.cpp:531-713 | Any acceptable message, unless it confuses, keeps the record about its sender in order; callbacks only speak of own keys or of the key in the message; the only key newly recorded as the peer's is the one the message carries |
| `SyncSafety.WalkSafe` | app/src/main/cpp/sync_keys.cpp:581-712 | The same for the loop of `recv_key` from any node and bit position it can reach |
| `SyncSearch.FindFirst` | app/src/main/cpp/sync_keys.cpp:271-297 | A search that starts at a bit finds an inner node exactly if some summary on the way compares equal to the message, and then the first such one |
| `SyncSearch.FindExact` | app/src/main/cpp/sync_keys.cpp:271-297 | A search for a full key finds a summary exactly if one on the way compares equal to the key; otherwise it succeeds exactly if the key is in the trie |
| `SyncSafety.LeavesOf` | app/src/main/cpp/sync_keys.cpp:193-200 | The minimum prefix length in a leaf's message is zero, or one more than the number of bits after which its key parts from some other key in play |
| `SyncReceive.StepDown` | app/src/main/cpp/sync_keys.cpp:680-711 | When the prefix loop ends without mismatch and bits of the message are left, it ends exactly at the node's prefix length, the node has the child for the next bit, and all keys below that child agree with a full key in one bit more |
| `SyncReceive.Skip` | app/src/main/cpp/sync_keys.cpp:656-678 | The prefix loop stops at the first bit where node and message differ or one prefix ends, and never inspects the last bit of a key |
| `SyncExact.MissingLeavesExact` | app/src/main/cpp/sync_keys.cpp:385-426 | Queueing the leaves of a node is not confused, records exactly those of its keys that were not recorded and reports each by `has_not`, and if removal is allowed drops exactly the recorded ones and reports each by `now_has` -- if and only if no key is missed: none whose turn comes when the first summary on its way that compares equal stands for it while it is not recorded, or is not marked while it is to be removed. Unless confused, other keys are left alone |
| `SyncExact.RemoveDifferencesXors` | app/src/main/cpp/sync_keys.cpp:486-528 | Removing what is known from a summary xors the keys of the node found out of the bits after the prefix, and keeps the prefix if that node's keys share it |
| `SyncExact.ApproachMatches` | app/src/main/cpp/sync_keys.cpp:494-516 | The node that `remove_differences` finds holds only keys that share the whole prefix of the message, or is one key that compares equal to it |
| `SyncExact.KnownDifferencesSettle` | app/src/main/cpp/sync_keys.cpp:595-599 | If the summarised leaves are ours but for what is recorded about the peer, the reduced message compares equal to our node, so that nothing is sent |
| `SyncExact.NewKeyDiscovered` | app/src/main/cpp/sync_keys.cpp:428-442 | A stored full key that we neither have nor have recorded is reported by `has` and recorded as the peer's, wherever the walk ends, exactly if no summary of ours on its way, and none in the record searched at the end, compares equal to it |
| `SyncExact.EqualTreesFallSilent` | app/src/main/cpp/sync_keys.cpp:370-383 | Replicas with the same keys send identical root messages, and receiving one queues nothing, reports no new key and records none |
| `SyncExact.KnownKeys` | app/src/main/cpp/sync_keys.cpp:486-516 | Whenever the record holds keys with the prefix of a stored message, `remove_differences` finds the node that holds exactly those |
| `SyncReply.PrefixKeysOffered` | app/src/main/cpp/sync_keys.cpp:601-651 | Unless the message confuses or an equal message ends the loop there, the loop ends at a node that holds every key of ours with the prefix of the message, and a queued message of ours covers each of these keys, but for keys that the node explaining the difference leaves out; keys that a blank message or that node says are lacking are recorded and reported, or dropped and reported if they were recorded. Only a summary in the record that compares equal to the key when its turn comes gets in the way |
| `SyncReply.PartingKeysTold` | app/src/main/cpp/sync_keys.cpp:653-690 | A key of ours that parts from the prefix of a message at some bit is afterwards recorded, and reported and offered if it was not before, if the message is stored and its `min_prefix_len` is at most that bit; otherwise it is left alone |
| `SyncReply.PartingSummaryQueued` | app/src/main/cpp/sync_keys.cpp:656-675 | Where the prefix of one of our nodes parts from that of a message, all keys below the node part there, and the node's own summary is queued after them if they are told to the sender of a summary |
| `SyncReply.EmptyPeerTold` | app/src/main/cpp/sync_keys.cpp:562-567 | A peer without keys is told every key of ours |
| `SyncReply.LackingKeysArrive` | app/src/main/cpp/sync_keys.cpp:582-586 | When a stored message compares equal to a node of ours, each key with its prefix that is recorded as lacking is reported by `now_has` and dropped |
| `SyncReply.ExplainedKeysLeft` | app/src/main/cpp/sync_keys.cpp:595-599 | When what is left of a message compares equal to a node of ours, nothing is recorded or reported about the keys below it |
| `SyncReply.EchoRecorded` | app/src/main/cpp/sync_keys.cpp:587-592 | The echo of a key of ours records it as lacking and reports that if it is new, unless a summary of ours or in the record compares equal |
| `SyncConfusion.PeerIsMissingConfused` | app/src/main/cpp/sync_keys.cpp:385-406 | For a leaf, exactly if removal is allowed, its key is not recorded, and the first summary on its way in the record that compares equal is marked as stored: then `remove_key` gets a key that is not there |
| `SyncConfusion.MissingLeavesConfused` | app/src/main/cpp/sync_keys.cpp:410-426 | Never without removal; with it, exactly if the turn of some key that is not recorded comes when the first summary on its way that compares equal is marked as stored |
| `SyncConfusion.RecvKeyConfused` | app/src/main/cpp/sync_keys.cpp:531-713 | Exactly if the loop ends at a node of ours that compares equal to an unstored message, is not a key of ours and has no match in the record, or settles the leaves of a node one of which confuses |
| `SyncConfusion.FullKeyEnd` | app/src/main/cpp/sync_keys.cpp:581-712 | For a full key the loop ends at the first summary of ours on its way that compares equal, if there is one, and otherwise at its own leaf or where the prefixes differ |
| `SyncConfusion.EchoConfused` | app/src/main/cpp/sync_keys.cpp:586-593 | An echo confuses exactly if a summary of ours on its way compares equal to it, and the first such summary is not a key of ours and has no match in the record: it is then recorded as one |
| `SyncConfusion.StoredKeyIsClear` | app/src/main/cpp/sync_keys.cpp:531-713 | No message that carries a stored key ever confuses, whatever keys there are |
| `SyncIndexed.NextIsClear` | app/src/main/cpp/sync_keys.cpp:105-129 | Among the first n of a family of 2 to the power of 32 keys no summary compares equal to the next key, for any n |
| `SyncIndexed.NextIsDiscovered` | app/src/main/cpp/sync_keys.cpp:428-442 | A replica that has heard of the first n of them discovers the next |
| `SyncIndexed.AllAreRecorded` | app/src/main/cpp/sync_keys.cpp:410-426 | Telling a peer of any number of them, with or without removal, records exactly those |
| `SyncRuns.ManyKeysRun` | app/src/main/cpp/sync_keys.cpp:314-336 | For any number of these keys, a run in which they are added one by one, told to a peer on its request, and followed by one more is not confused, and leaves exactly these keys as own and as told |
| `SyncRuns.ConfusedRun` | app/src/main/cpp/sync_keys.cpp:328-335 | A run with four keys, after which adding a fifth, which equals the summary of three that a peer was told, is confused |
| `SyncRuns.ConfusedLeaf` | app/src/main/cpp/sync_keys.cpp:385-398 | With those three keys recorded, a leaf with the fifth is found when removal is allowed, and confuses |
| `SyncRuns.ThirdKeyLost` | app/src/main/cpp/sync_keys.cpp:216-268 | Removing the fifth key from such a record frees the leaf of the third |
| `SyncRemoval.RemovePresent` | app/src/main/cpp/sync_keys.cpp:216-268 | The walk of `remove_key`, defined for any key, removes a key that is there as the trie model says |
| `SyncRemoval.StoppedExactly` | app/src/main/cpp/sync_keys.cpp:225-231 | The assertion in the walk fails exactly if the key parts from the prefix of a node that the walk comes by |
| `SyncRemoval.OtherLeafGoes` | app/src/main/cpp/sync_keys.cpp:216-268 | Otherwise, a key that is not there makes the leaf of another key go, and if the root stays its summary is wrong afterwards |
| `SyncPeer.HasReceivedAll` | app/src/main/cpp/sync_keys.cpp:458-480 | Removes from the peer trie exactly the stored leaves below a node and returns how many there were |
| `SyncPeer.WithKeyOK` | app/src/main/cpp/sync_keys.cpp:400-402 | Recording a key keeps the record about a peer true and both counters exact |
| `SyncPeer.WithoutKeyOK` | app/src/main/cpp/sync_keys.cpp:393-395 | Removing a recorded key keeps the record about a peer true and both counters exact |
| `SyncSearch.SameLeavesSameMessage` | app/src/main/cpp/sync_keys.cpp:105-129 | Two messages that summarise the same leaves compare equal, whatever prefix lengths no longer than the shared prefix they use |
| `SyncSearch.FindPresent` | app/src/main/cpp/sync_keys.cpp:271-297 | A key that is in the trie is never missed by `find_message` |
| `SyncSearch.SearchForKey` | app/src/main/cpp/sync_keys.cpp:271-303 | A leaf that is found is the key; an absent key is found only as an inner node, whose summary equals the key exactly when the minimum prefix length is zero |
| `SyncTrie.AddCorrect` | app/src/main/cpp/sync_keys.cpp:146-202 | `add_key` of a new key keeps the trie invariant (two children, shared prefix, xor of the rest, minimum prefix lengths), adds exactly that leaf, and xors the key into the summary |
| `SyncTrie.XorChildrenSummarises` | app/src/main/cpp/sync_keys.cpp:132-143 | Xor-ing all leaves below a node into a fresh message gives their shared prefix and the xor of the remaining bits |
| `SyncTrie.RemoveCorrect` | app/src/main/cpp/sync_keys.cpp:216-268 | `remove_key` of a present key keeps the invariant, takes out exactly that leaf, and leaves nothing only if it was the last |
| `SyncTrie.RemoveUndoesAdd` | app/src/main/cpp/sync_keys.cpp:146-268 | Removing a key that was just added gives back the very same trie |
| `SyncTrie.Canonical` | app/src/main/cpp/sync_keys.cpp:146-268 | Two well-formed tries over the same keys have the same shape, prefix lengths and summaries |
| `SyncTrie.HistoriesConverge` | app/src/main/cpp/sync_keys.cpp:146-268 | Any two histories of insertions and removals that leave the same keys leave the same trie |
| `SyncTrie.CanAddStep` | app/src/main/cpp/sync_keys.cpp:151-191 | On the way down, `add_key` never inspects the last bit and never reaches a leaf with all bits matched |
| `SyncKey.XorIntoAssigns` | app/src/main/cpp/sync_keys.cpp:72-81 | The or in the boundary byte amounts to assigning the prefix when the old prefix bits are clear or agree |
| `SyncKey.XorMessageTwice` | app/src/main/cpp/sync_keys.cpp:66-86 | Xor-ing a key twice into a message whose prefix it shares restores the message |
| `SyncBytes.SyncXor` | app/src/main/cpp/sync_keys.cpp:66-86 | The three byte loops with their mask do, on the bits of the key, what the trie model does |
| `SyncBytes.CmpMessage` | app/src/main/cpp/sync_keys.cpp:105-131 | The byte comparisons, with both offsets rounded to bytes, decide what the model's comparison of bits does |
| `SyncBytes.GetOneBit` | app/src/main/cpp/sync_keys.cpp:90-100 | Shifting a window of two bytes yields the bit of the key at the offset |
| `SyncBytes.BlankKey` | app/src/main/cpp/sync_keys.cpp:575-579 | The loop over the bytes after the prefix decides whether the message is blank |
| `SyncTree.KeyTree.AddKey` | app/src/main/cpp/sync_keys.cpp:146-202 | The loop over linked nodes carries out `SyncTrie.Add` in place, returns the new leaf, and changes at most the minimum prefix length of nodes that do not share their prefix with the key |
| `SyncTree.KeyTree.RemoveKey` | app/src/main/cpp/sync_keys.cpp:216-268 | The loop over linked nodes carries out `SyncTrie.Remove` in place; every node without the key survives and keeps all but its minimum prefix length |
| `SyncTree.KeyTree.FindMessageNode` | app/src/main/cpp/sync_keys.cpp:271-297 | The pointer walk returns the node that `SyncSearch.FindMessage` describes |
| `SyncTree.KeyTree.XorChildrenOf` | app/src/main/cpp/sync_keys.cpp:132-143 | The recursion over linked nodes computes `SyncTrie.XorChildren` |
| `SyncTree.KeyTree.SplitAt` | app/src/main/cpp/sync_keys.cpp:174-191 | A new parent takes the node's place in its slot, with the summary of what is below it |
| `SyncState.State.HaveReceivedAll` | app/src/main/cpp/sync_keys.cpp:458-480 | In place: although each removal restructures the trie being walked, the nodes still to be visited survive, and the result, the callbacks and the count are those of `SyncPeer.HasReceivedAll` |
| `SyncState.State.RecvKey` | app/src/main/cpp/sync_keys.cpp:531-713 | In place: return value, callbacks in order and peer record are those of `SyncReceive.RecvKey`, of which `SyncReply` says what they cover |
| `SyncState.State.Walk` | app/src/main/cpp/sync_keys.cpp:569-712 | The loop of `recv_key` with its early exits; the pointer to the known node stays good while keys are added around it |
| `SyncState.State.IsMissing` | app/src/main/cpp/sync_keys.cpp:385-406 | In place: does what `SyncPeer.PeerIsMissing` says, and adding touches only nodes that share their prefix with the key |
| `SyncState.State.AllLeavesMissing` | app/src/main/cpp/sync_keys.cpp:410-426 | In place: does what `SyncPeer.MissingLeaves` says |
| `SyncState.State.AddPeerKey` | app/src/main/cpp/sync_keys.cpp:428-442 | In place: does what `SyncPeer.PeerAddKey` says; the echoed message is that of the new leaf |
| `SyncState.State.TakeOutDifferences` | app/src/main/cpp/sync_keys.cpp:486-528 | The loop finds the node and computes the reduced message of `SyncReceive.RemoveDifferences` |
| `SyncState.State.AtTheEnd` | app/src/main/cpp/sync_keys.cpp:603-651 | The replies when the prefix bits are used up are those of `SyncReceive.AtEnd`, which `SyncReply.PrefixKeysOffered` shows to cover every key of ours with that prefix |
| `SyncState.State.AddOwn` | app/src/main/cpp/sync_keys.cpp:314-326 | A key is added to the own tree exactly if the search for it fails |
| `SyncState.State.ForgetKey` | app/src/main/cpp/sync_keys.cpp:328-335 | Each peer trie loses a key that has become ours, and `recv_count` goes down with it |
| `RangeScript.ChannelIsFaithful` | app/src/main/cpp/forms/arithmetic.c:241-297 | After any sequence of symbols has been coded from reset and concluded, at every step the decoder's value selects exactly the symbol that was coded, whatever bits follow the end |
| `RangeScript.SharesInOrder` | app/src/main/cpp/forms/arithmetic.c:525-541 | Under the table of given shares each symbol takes exactly its own share, after those of all symbols before it, and the last one the rest |
| `RangeScript.UniformInOrder` | app/src/main/cpp/forms/arithmetic.c:299-305 | The bounds of the n-th of equally likely symbols are n and n + 1 times 0xffffff over their number, rounded down |
| `RangeScript.BoundaryProportional` | app/src/main/cpp/forms/arithmetic.c:612-630 | A boundary divides the current interval in proportion, up to a rounding of less than 257 |
| `RangeConclude.ConclusionAccepted` | app/src/main/cpp/forms/arithmetic.c:429-498 | Every continuation of the concluding bits (top bit, complemented underflow bits, tail) stays inside the final interval |
| `RangeConclude.AlwaysFits` | app/src/main/cpp/forms/arithmetic.c:449-490 | At most 31 tail bits are needed, from any interval, so that the failure exit is never reached |
| `RangeConclude.TwoBitsSuffice` | app/src/main/cpp/forms/arithmetic.c:449-490 | At most two tail bits are used exactly if the quarter of the range that holds the middle lies in the interval that remains after the top bit |
| `RangeConclude.ManyBitsNeeded` | app/src/main/cpp/forms/arithmetic.c:470-473 | A normalised state for which 31 tail bits are used |
| `RangeScript.TwoBitsMayNotDo` | app/src/main/cpp/forms/arithmetic.c:470-473 | Coding one symbol of a table of three from reset ends in a state for which more than two tail bits are used |
| `RangeModel.NarrowBounds` | app/src/main/cpp/forms/arithmetic.c:612-646 | A normalised interval is wide enough that every symbol of non-zero width keeps a non-empty part of it, inside the old one |
| `RangeModel.Normalise` | app/src/main/cpp/forms/arithmetic.c:90-178 | Both shift loops end, with the top bit of low clear, that of high set, and the interval wider than a quarter |
| `RangeModel.EncodeStepAccepts` | app/src/main/cpp/forms/arithmetic.c:241-297 | A bit stream is consistent with the state after a step exactly if it is with the state before and its window lies in the symbol's interval |
| `RangeModel.DecoderStableShift` | app/src/main/cpp/forms/arithmetic.c:90-132 | Shifting out a settled bit keeps the decoder's value in step with the stream |
| `RangeModel.DecoderUnderflowShift` | app/src/main/cpp/forms/arithmetic.c:134-178 | Dropping the second bit in the underflow case keeps the decoder's value in step with the stream |
| `RangeScript.SelectsUnique` | app/src/main/cpp/forms/arithmetic.c:563-610 | At most one symbol's interval contains the decoder's value |
| `RangeScript.SentSymbolSelected` | app/src/main/cpp/forms/arithmetic.c:563-610 | In step with the encoder, a symbol is selected exactly if it is the one that was coded next |
| `RangeScript.UniformEstimate` | app/src/main/cpp/forms/arithmetic.c:332-383 | For every alphabet below 0x400000 and every normalised state, the equiprobable symbol is the estimate or its successor |
| `RangeScript.EncodeAllAccepts` | app/src/main/cpp/forms/arithmetic.c:241-297 | Streams consistent with the end of a script are consistent with every state on the way |
| `RangeCoder.RangeCoder.EmitBit` | app/src/main/cpp/forms/arithmetic.c:76-88 | Appends the bit, or fails exactly when the buffer is full |
| `RangeCoder.RangeCoder.GetNextBit` | app/src/main/cpp/forms/arithmetic.c:62-74 | Reads the next bit, and zeros after the end |
| `RangeCoder.RangeCoder.EmitStableBitsEncoding` | app/src/main/cpp/forms/arithmetic.c:90-178 | Carries out the normalisation and fails exactly when the settled bits do not fit |
| `RangeCoder.RangeCoder.EmitStableBitsDecoding` | app/src/main/cpp/forms/arithmetic.c:90-178 | Carries out the normalisation on the decoder's side and stays in step with the stream |
| `RangeCoder.RangeCoder.CalcNewRange` | app/src/main/cpp/forms/arithmetic.c:612-646 | The new bounds stay inside the old ones; the decoder's check succeeds exactly if the value lies between them |
| `RangeCoder.RangeCoder.Encode` | app/src/main/cpp/forms/arithmetic.c:241-297 | Carries out one encoding step; fails exactly for an improper interval or a full buffer, and leaves the state alone in the former case |
| `RangeCoder.RangeCoder.EncodeSymbol` | app/src/main/cpp/forms/arithmetic.c:525-540 | Codes the symbol's part of the cumulative table; fails without effect once an error has been counted, and otherwise exactly when the bits do not fit |
| `RangeCoder.RangeCoder.EncodeEquiprobable` | app/src/main/cpp/forms/arithmetic.c:307-330 | Codes a symbol of any alphabet, splitting large ones, given room in the buffer |
| `RangeCoder.RangeCoder.DecodeSymbol` | app/src/main/cpp/forms/arithmetic.c:563-610 | Finds a symbol whose interval contains the value and moves to the state the encoder had after it |
| `RangeCoder.RangeCoder.DecodeCommon` | app/src/main/cpp/forms/arithmetic.c:648-722 | Accepts a candidate exactly if the value lies in its interval, then follows the encoder; otherwise leaves everything as it was |
| `RangeCoder.RangeCoder.SearchEquiprobable` | app/src/main/cpp/forms/arithmetic.c:332-383 | The three-candidate search finds the selected symbol whenever there is one, and otherwise changes nothing |
| `RangeCoder.RangeCoder.DecodeEquiprobable` | app/src/main/cpp/forms/arithmetic.c:332-383 | On a stream that an encoder wrote, returns the symbol that was coded, for any alphabet |
| `RangeCoder.RangeCoder.ReceiveSymbol` | app/src/main/cpp/forms/arithmetic.c:563-610 | On a stream that an encoder wrote, returns the symbol that was coded |
| `RangeCoder.RangeCoder.Conclude` | app/src/main/cpp/forms/arithmetic.c:429-498 | Appends the conclusion and leaves the underflow count negative, or fails exactly when it does not fit |
| `RangeCoder.ChooseTail` | app/src/main/cpp/forms/arithmetic.c:449-490 | The search ends with the fewest leading bits of the middle whose block lies in the interval |
| `RangeCoder.RangeCoder.DecodePrefetch` | app/src/main/cpp/forms/arithmetic.c:724-733 | From any stream the decoder starts in step with a reset encoder |
| `Interpolative.ListCodedOnce` | app/src/main/cpp/forms/gsinterpolative.c:113-187 | The recursion over a list codes each index exactly once, after the neighbours that its own place in the tree gives it, and the left half of a node before the right one |
| `Interpolative.VisitsOnce` | app/src/main/cpp/forms/gsinterpolative.c:113-169 | Below any node, each index strictly between its ends is visited exactly once and no other is |
| `Interpolative.VisitsInOrder` | app/src/main/cpp/forms/gsinterpolative.c:113-169 | Each entry is visited after its in-range lower and upper neighbours |
| `Interpolative.EntryInRange` | app/src/main/cpp/forms/gsinterpolative.c:121-160 | The value to be coded lies between the bounds computed from its neighbours |
| `Interpolative.RangeIsTight` | app/src/main/cpp/forms/gsinterpolative.c:132-141 | The bounds hold exactly the values that some increasing list with the same neighbours and maximum has at that index |
| `Interpolative.VisitsPlaced` | app/src/main/cpp/forms/gsinterpolative.c:113-187 | Each index is coded against the neighbours that lie the largest power of two dividing index + 1 away on both sides, or beyond the list |
| `Interpolative.ScriptFollowsVisits` | app/src/main/cpp/forms/gsinterpolative.c:113-169 | The symbols that the recursion codes are those of the visits, in their order |
| `Interpolative.BiggestPowerOf2` | app/src/main/cpp/forms/gsinterpolative.c:50-56 | Returns the largest power of two below a number, and zero if there is none |
| `Interpolative.IcEncode` | app/src/main/cpp/forms/gsinterpolative.c:171-187 | Codes exactly the script of a strictly increasing list, whose order and alphabets `ListCodedOnce` and `RangeIsTight` fix |
| `Interpolative.IcDecode` | app/src/main/cpp/forms/gsinterpolative.c:171-187 | Rebuilds the list from what was coded, in place |
| `Smac.Decompress` | app/src/main/cpp/forms/smac.c:63-173 | For every message shorter than 1024 and any valid probability tables, decoding bytes that begin with a concluded encoding gives the message back |
| `Smac.Compress` | app/src/main/cpp/forms/smac.c:185-248 | Writes a concluded encoding of the message, and cannot fail if the buffer has room for it and for 32 bits more |
| `Smac.CompressModel1` | app/src/main/cpp/forms/smac.c:185-248 | Codes model number, length, non-letters, letters and case in the order that the decoder expects |
| `Smac.StartTellsModel` | app/src/main/cpp/forms/smac.c:70-73 | The first two symbols of a model 1 message are top bits that no first byte of UTF-8 text has, so that the decoder cannot take it for raw text; the choice against packed text and the length follow |
| `Smac.DecompressModel1` | app/src/main/cpp/forms/smac.c:63-152 | Decodes the parts, each with tables that depend on what was decoded before, and puts them together again |
| `Smac.Reintegrate` | app/src/main/cpp/forms/smac.c:117-148 | Merging positions, values and remaining letters restores the message |
| `NonAlpha.NextPlace` | app/src/main/cpp/forms/smac.c:136-148 | At each place, comparing with the next position tells whether the character comes from the values or from the letters |
| `NonAlpha.PartsOfPrefix` | app/src/main/cpp/forms/nonalpha.c:72-104 | Positions, values and kept characters of a prefix are prefixes of those of the message |
| `NonAlpha.StripNonAlpha` | app/src/main/cpp/forms/nonalpha.c:29-40 | Keeps exactly the characters that have an index or are beyond ASCII |
| `NonAlpha.FindNonAlpha` | app/src/main/cpp/forms/nonalpha.c:72-92 | Collects positions and values of the other characters |
| `NonAlpha.EncodeNonAlpha` | app/src/main/cpp/forms/nonalpha.c:72-126 | Codes count, positions and values |
| `NonAlpha.DecodeNonAlpha` | app/src/main/cpp/forms/nonalpha.c:42-70 | Restores count, positions and values |
| `LowerCaseAlpha.EncodeLCAlphaSpace` | app/src/main/cpp/forms/lowercasealpha.c:64-145 | Codes exactly the script of characters, whose tables `NextCharacter` fixes for every character |
| `LowerCaseAlpha.NextCharacter` | app/src/main/cpp/forms/lowercasealpha.c:64-145 | For every message and next character, the script grows by the symbol under the table for the whole message so far, then a digit, or the character of its code page, after that page where it differs from the page of the last character that had one |
| `LowerCaseAlpha.PageMeans` | app/src/main/cpp/forms/lowercasealpha.c:67-69 | The page in force is that of the last character above 0x7f, and none has been chosen exactly if there was none |
| `LowerCaseAlpha.DecodeLCAlphaSpace` | app/src/main/cpp/forms/lowercasealpha.c:64-145 | Restores the characters, digits and code pages included |
| `CaseModel.MungeIsInvolution` | app/src/main/cpp/forms/case.c:47-62 | `mungeCase` is its own inverse |
| `CaseModel.MungeCase` | app/src/main/cpp/forms/case.c:47-62 | Flips exactly the lone letters i, in place |
| `CaseModel.MungeKeepsLetters` | app/src/main/cpp/forms/case.c:47-62 | Apart from case the message stays the same |
| `CaseModel.EncodeCaseModel1` | app/src/main/cpp/forms/case.c:77-161 | Codes exactly the script of cases, whose shares `CaseOfNextLetter` fixes for every letter |
| `CaseModel.StateMeans` | app/src/main/cpp/forms/case.c:77-161 | After any message the state is what the message says: how many words have begun, the place in the open word up to 79 or -1, the cases of the first letters of the last two words, and of the last letter of the open word |
| `CaseModel.CaseOfNextLetter` | app/src/main/cpp/forms/case.c:91-148 | For every message and next character, the script grows by the case of a letter under the share that the message before it selects, and by nothing for other characters |
| `CaseModel.DecodeCaseModel1` | app/src/main/cpp/forms/case.c:77-161 | Restores the case of all letters, in place |
| `Charset.CharIdx` | app/src/main/cpp/forms/charset.c:30-43 | Returns the index of the character's representative, or nothing if it has none |
| `HashTable.HashTable.Lookup` | app/src/main/cpp/expat/xmlparse.c:5971-6048 | Returns the entry stored under the name; if there is none, creates one exactly if asked to, and changes no other |
| `HashTable.HashTable.Find` | app/src/main/cpp/expat/xmlparse.c:5989-6002 | Probing ends, at the entry or at a free slot that proves its absence |
| `HashTable.HashTable.Grow` | app/src/main/cpp/expat/xmlparse.c:6006-6033 | Moving to a table of twice the size loses no entry |
| `HashTable.HashTable.Clear` | app/src/main/cpp/expat/xmlparse.c:6050-6058 | Removes all entries and keeps the slots |
| `HashTable.FreeSlot` | app/src/main/cpp/expat/xmlparse.c:6016-6038 | Probing for a free slot ends in a table that is not full |
| `HashTable.Step` | app/src/main/cpp/expat/xmlparse.c:127-130 | The step is odd, fits a byte, and is smaller than the table |
| `HashTable.ProbesDiffer` | app/src/main/cpp/expat/xmlparse.c:116-130 | An odd step in a table whose size is a power of two visits a new slot each time until all are visited |
| `HashTable.StoppedAbsent` | app/src/main/cpp/expat/xmlparse.c:5993-6002 | If probing stops at a free slot without meeting the name, the name is not in the table |
| `HashTable.PutHolds` | app/src/main/cpp/expat/xmlparse.c:6041-6047 | A new entry where probing stops keeps every entry findable |
| `HashTable.HashTableIter.Next` | app/src/main/cpp/expat/xmlparse.c:6087-6096 | Returns the entries of the remaining slots one by one, then null |
| `HashTable.IterationIsExact` | app/src/main/cpp/expat/xmlparse.c:6080-6096 | Iteration meets every entry of the table once and nothing else |
| `IdList.Sort` | app/src/main/cpp/lmdb/midl.c:220-281 | The list ends in descending order and is a permutation; nothing outside it changes; the stack index stays inside the stack |
| `IdList.Partition` | app/src/main/cpp/lmdb/midl.c:244-266 | Splits a segment around its pivot: larger or equal before, equal between, smaller or equal after |
| `IdList.ScanUp` | app/src/main/cpp/lmdb/midl.c:260-260 | The scan from the left stops within the segment, at its last element at the latest |
| `IdList.ScanDown` | app/src/main/cpp/lmdb/midl.c:261-261 | The scan from the right stops within the segment, at its second element at the latest |
| `IdList.InsertionSort` | app/src/main/cpp/lmdb/midl.c:232-240 | Sorts a segment in place without moving below its start, although the inner loop only tests for the start of the list |
| `IdList.DepthBound` | app/src/main/cpp/lmdb/midl.c:267-277 | A segment long enough to be split is at most 28 splits deep, for any list whose length fits an int |
| `IdList.HalvingSplit` | app/src/main/cpp/lmdb/midl.c:267-277 | Deferring the larger part and going on with the smaller one keeps the halving bound |
| `IdList.PendingSplit` | app/src/main/cpp/lmdb/midl.c:244-266 | After a partition everything outside the two new segments is in order |
| `IdList.Search` | app/src/main/cpp/lmdb/midl.c:34-67 | Finds the ID, or the first position of a smaller one |
| `IdList.XMerge` | app/src/main/cpp/lmdb/midl.c:200-213 | Merges two descending lists in place: descending, all IDs of both, nothing beyond changed |
| `Sha256.HashState.Final` | app/src/main/cpp/hash.c:211-231 | The digest is SHA-256, as FIPS 180-4 defines it, of all input since the start |
| `Sha256.HashState.Update` | app/src/main/cpp/hash.c:247-285 | Takes in the input in pieces of any size: the state always stands for the whole message so far |
| `Sha256.HashPieces` | app/src/main/cpp/hash.c:247-295 | However the input is cut up, the digest is that of the whole |
| `Sha256.Transform` | app/src/main/cpp/hash.c:155-203 | The rounds with turning indices and interleaved schedule compute the compression function of section 6.2.2 of FIPS 180-4 |
| `Sha256.DoRound` | app/src/main/cpp/hash.c:141-149 | One round with fixed variables and turned indices is one round of the standard |
| `Sha256.ExtendSchedule` | app/src/main/cpp/hash.c:151-153 | Sixteen schedule words from the ones before |
| `Sha256.ChSame` | app/src/main/cpp/hash.c:132-132 | The short form of Ch is that of the standard |
| `Sha256.MajSame` | app/src/main/cpp/hash.c:133-133 | The short form of Maj is that of the standard |
| `Sha256.PadLast` | app/src/main/cpp/hash.c:211-231 | Both padding branches complete the padding of section 5.1.1 of FIPS 180-4 |
| `Sha256Spec.PadEndsInLength` | app/src/main/cpp/hash.c:82-97 | The last eight bytes of a padded message are its length in bits, the most significant byte first |
| `Sha256Spec.Store64ByPlace` | app/src/main/cpp/hash.c:82-97 | Any number of bytes stores exactly the number that their places give |
| `Sha256Spec.LoadedByPlace` | app/src/main/cpp/hash.c:49-65 | A word is loaded with each byte in its place, the first one on top |
| `Sha256Spec.StoredByPlace` | app/src/main/cpp/hash.c:66-78 | A word is stored with each byte in its place, the first one on top |
| `Sha256Constants.PrimesInOrder` | app/src/main/cpp/hash.c:118-130 | The table behind the constants holds the first 64 primes, in order and without a gap |
| `Sha256Constants.RoundConstants` | app/src/main/cpp/hash.c:118-130 | Each round constant is the first 32 bits of the fractional part of the cube root of the prime of its index (section 4.2.2 of FIPS 180-4) |
| `Sha256Constants.InitialHashWords` | app/src/main/cpp/hash.c:236-243 | The initial hash value is the same of the square roots of the first eight primes (section 5.3.3 of FIPS 180-4) |
| `Sha256Abc.AbcDigest` | app/src/main/cpp/hash.c:155-295 | The digest of "abc" is that of the example in appendix B.1 of FIPS 180-2, computed from the definitions through all 64 rounds |
| `Storage.Session` | app/src/main/cpp/storage.cpp:395-498 | Any number of files are open, each through one handle, and their appends and flushes, successful or failed, are interleaved in any way: the stored hashes and the root stay right, every handle stays in step with the store and holds what the run amounts to, stored bytes stay at the front of their file, files that are not open do not change, and nothing does while the database fails; every stored file is found in the index under the first eight bytes of its hash, with its name, version and length, unless a later commit has written under the same key; and each version is the number of commits modulo 2 to the power of 32 |
| `Storage.OwnCallsOnly` | app/src/main/cpp/storage.cpp:395-498 | What a file holds after a run depends on the calls through its own handle only, however others are interleaved with them |
| `Storage.StoredBytesStay` | app/src/main/cpp/storage.cpp:395-498 | After any interleaved run, the bytes that a file had stored are at the front of what it stores, and that at the front of what its handle holds |
| `Storage.FileHandle.Flush` | app/src/main/cpp/storage.cpp:400-498 | A flush that fails discards exactly the uncommitted bytes and changes nothing stored; one that succeeds commits exactly the appended bytes and touches no other file, takes the next version, and puts name, version and length into the index under the first eight bytes of the new hash; an expected hash is compared with that of the new contents |
| `Storage.Store.Commit` | app/src/main/cpp/storage.cpp:454-475 | After a commit every stored hash is SHA-256 of the committed bytes and the root is the xor of all stored hashes, and the index has one more write: the version under the key of the new hash |
| `Storage.IndexedFindable` | app/src/main/cpp/storage.cpp:430-449 | Whatever commits wrote to the index, a stored file is found there with its current version and length unless a later commit shares the first eight bytes of its hash |
| `Storage.XorAllReplaced` | app/src/main/cpp/storage.cpp:454-457 | Xor-ing out the old hash and in the new one gives the xor of all hashes after the replacement |
| `Storage.FileHandle.constructor` | app/src/main/cpp/storage.cpp:349-393 | An opened file stands for exactly the committed bytes |
| `Storage.FileHandle.Append` | app/src/main/cpp/storage.cpp:395-398 | Appended bytes follow the earlier ones and leave the committed ones alone |
| `Storage.FileHandle.Rewind` | app/src/main/cpp/storage.cpp:494-497 | What has been appended since the last commit is forgotten |

## Left out

- Allocation failure, logging, JNI, sockets and the Android side.
- Synchronisation: context pointers, the progress and statistics counters, unset callbacks, `sync_free_peer_state`, and the byte layout of packets; a packet of several messages is a sequence of deliveries. Convergence of two replicas and the accuracy of `now_has` rest on heuristics (blank suffixes, partial comparison) and are not claimed.
- SyncPeer.PeerIsMissing: where a summary is taken for a key the outcome is only marked as confused; what the source does from there on is not modelled, but for the removal itself in `SyncRemoval`.
- SyncState.State.RecvKey: asks that the message does not confuse, since the removal in place needs the key to be there; `SyncConfusion.RecvKeyConfused` says exactly which messages do.
- SyncState.State.Walk: asks the same of the loop, `SyncState.State.AtTheEnd` and `SyncState.State.AllLeavesMissing` of the leaves to be settled.
- SyncState.State.IsMissing: asks the same of one node; `SyncConfusion.PeerIsMissingConfused` says exactly when it is not met.
- SyncState.State.ForgetKey: asks that no summary stands for the key in a peer trie that lacks it (`SyncNetwork.DroppedConfused`); is the body of the loop over all peers in `sync_add_key`; the list of peers itself is a sequence in `SyncNetwork`.
- SyncTree.KeyTree.RemoveKey: freed nodes are nodes that leave the tree's ghost set; memory is not returned.
- Range coder: entropy bookkeeping in floating point, debugging output, `norescale`, symbols of zero width (an encoder cannot send them), and the masks of `range_emit_stable_bits`, which are arithmetic here; the loops that serve encoder and decoder are two methods each.
- RangeCoder.RangeCoder.Encode: asks that the bounds differ; with equal ones the source goes on with an interval whose ends are crossed.
- RangeCoder.RangeCoder.EncodeEquiprobable: asks for room in the buffer; a full buffer is covered by `EmitBit`, `Encode`, `EncodeSymbol` and `Conclude`.
- RangeCoder.RangeCoder.ReceiveSymbol: is stated for streams that an encoder wrote; `DecodeSymbol` covers any stream.
- RangeCoder.RangeCoder.DecodeEquiprobable: is stated for streams that an encoder wrote; `SearchEquiprobable` covers any stream.
- Interpolative.IcDecode: is stated for streams that an encoder wrote, as are `NonAlpha.DecodeNonAlpha`, `LowerCaseAlpha.DecodeLCAlphaSpace`, `CaseModel.DecodeCaseModel1` and `Smac.Decompress`.
- Smac.Compress: asks for a buffer that holds the coded symbols. The source takes twice the length of the message and ignores failures of the encoders, so that what it returns is cut off if that is not enough.
- Text model: the packed statistics file (tables are any valid functions of the decoded context), the radix and raw fallbacks and the choice between models, UTF-8 conversion, the unused look-ahead in `case.c`; `isupper` and `isalpha` return 0 or 1, in the C locale.
- Hash table: the hash function itself (any function will do), the salt, and the contents of entries beyond their names.
- ID lists: `mdb_midl_alloc`, `mdb_midl_grow` and the append functions.
- SHA-256: MD5, which repeats the same argument, and lengths of 2 to the power of 61 bytes and more, which the standard excludes and the bit count wraps.
- Storage: LMDB itself (a transaction takes effect as a whole or not at all), the index records of peers' files that `receive_metadata` stores under the same kind of key, file names longer than the buffer, the cleared database of another format version, and the sync keys added after a commit. The loop that computes the new root also runs over the version byte, which is set right after it. Lengths are unbounded numbers.
