# Verified models of the hard algorithms of this repository

The Dafny files model the parts of the repository that hold the most state, branching and
arithmetic, and prove what they are for. `dafny verify dfyconfig.toml` checks them all.

Two sources are modelled: the algorithms in `static/swaggerui/swagger-ui-standalone-preset.js`,
whose code is minified onto line 2 and is named below by its module numbers, and the delegation
escrow of `src/keria/app/delegating.py`.

| file | component |
|---|---|
| HashTrie, PersistentMap | the hash-trie Map of module 43393 as values, against a mathematical map |
| TransientTrie, TransientMap | the same nodes as objects, edited in place by a `withMutations` session |
| Sessions | which sessions change a map that existed before them, told from the map and the updates |
| TwoKeys | a map of two keys of one hash, its way there from the empty map, and a session that leaks from it |
| LinkedMap | the insertion-ordered map of module 85616, its `forEach` and its iterators |
| Writable | the writable stream of module 64229 |
| Utf8, StringDecoder | the functions `q` and `N` of module 48764 and the chunked decoder of module 32553 |
| HashStream | the block hash of module 24189 |
| OrderedMap | the OrderedMap of module 43393 |
| RangeSet, RandExp | the range set of module 69450 and the regex sampler of module 14419 with the tokens of 30504 |
| Base64 | module 79742 |
| BufferList | module 57327 |
| Delegating | `Anchorer` of `delegating.py` |

Where the code updates objects the model is a class whose methods are proved against functions on
values; the theorems are lemmas about those functions. Where the code can do different things
(the answers of `_write`, the order of a store's keys, random numbers, what a callback does) the
theorems are for all of them.

What the models take for granted: equal keys hash equally (the hash is part of a key), and `===`
is equality of values; digests do not collide; `pin` overwrites, `put` keeps what is there, and
`getItemIter` walks a snapshot; a cloned event is the event stored; sends succeed; an
identifier's own events carry its prefix and number; others only add receipts, cues, anchors and
identifiers, and never change a delegator.

## What the code does not do

Where the code falls short of what one would expect of it, a theorem gives the exact condition and a
lemma or method shows it at an input.

- A `withMutations` session can change a map that existed before it: removing one of two keys of
  equal hash leaves the pair of the other, still shared, in a leaf of the session, and a set of that
  key writes to it. Which sessions do is a function of the map and the updates, `Sessions.FirstLeak`
  (`TransientMap.MutableMap.WithMutations`, `TransientMap.OldMapChanges`); sessions of small maps,
  without removals, or over keys of different hashes never do.
- `q` loses a high surrogate at the end of a string after another one, and takes a budget of 0 for
  none (`Utf8.EncodesAll`, `Utf8.EncodesWhatFits`, `Utf8.LosesHigh`, `Utf8.ZeroIsNoLimit`).
- The string decoder and the one-shot decoder count the bytes of a cut code point differently
  (`StringDecoder.OneGoOnCutText`, `StringDecoder.TwoBytesLeftOver`).
- A lookup in the ordered Map of a frozen object may find a primitive that is `==` to it, and a number
  and a bigint of one text share an entry (`LinkedMap.LookupIsExact`, `LinkedMap.IndexShared`,
  `LinkedMap.FrozenReadsPrimitive`, `LinkedMap.BigIntReadsNumber`).
- `subtract` with a reversed range, its low end above its high end, tangles the list it leaves; on a
  tangled list `subtract` stops before ranges that it should cut, so that a set with a reversed range
  before others may leave members of its own (`RangeSet.SubtractKeepsSorted`, `RangeSet.SubtractExact`,
  `RangeSet.SubtractAllExact`, `RangeSet.SubtractAllDifference`, `RangeSet.ReversedTangles`,
  `RangeSet.ReversedHidesMember`, `RangeSet.RepeatedReaches`).
- `add` of a range that neither overlaps nor adjoins any other puts it last, also when others are above
  it, which leaves the list out of order (`RangeSet.AddExactly`, `RangeSet.AddKeepsSorted`).
- The parser of expressions compares neither the bounds of a repetition nor the ends of a range in a
  set. A repetition with its minimum above its maximum, `a{3,1}`, gives strings that are too long and
  not in the language, which is empty (`RandExp.RepetitionExact`, `RandExp.ReversedCount`). A negated
  set with a reversed range may give a character that it excludes, `[^z-anb]`; a set that is not negated
  may have a length of 0 or below for it, and then gives nothing, makes `index` raise, as `[z-a]`
  always does, or gives characters below its first range (`RandExp.ExpandExact`, `RandExp.SetExact`,
  `RandExp.NegatedReversed`, `RandExp.ReversedRaises`).
- `consume` of more than there is leaves a list whose `length` is wrong
  (`BufferList.BufferList.Consume`, `BufferList.ConsumeTooMuch`).
- `delegation` takes the proxy before it finds out that the delegator is unknown or the event missing
  (`Delegating.FailedCallChangesProxy`, `Delegating.FailedCallDecidesSender`); an entry that nobody
  can send aborts the passes for all (`Delegating.WitnessPassRaises`, `Delegating.StuckEntryAborts`);
  of two events at one number the first to be anchored keeps the record
  (`Delegating.CompleteForEver`, `Delegating.SecondEventShutOut`).

## Model

| member | source | states |
|---|---|---|
| HashTrie.DifferentHashesPart | static/swaggerui/swagger-ui-standalone-preset.js:2 | Two different 32-bit hashes agree on some first groups of five bits and differ in the next, at a shift of at most 30: why `ae` ends. |
| HashTrie.GetCounts | static/swaggerui/swagger-ui-standalone-preset.js:2 | In a well-shaped tree a pair is held once if `get` finds its value under its key on its path, and otherwise not at all: no key twice, none out of place. |
| HashTrie.ViewPairs | static/swaggerui/swagger-ui-standalone-preset.js:2 | A bitmap node holds just what the 32 slots it stands for hold, in slot order: population count and child positions agree. |
| HashTrie.PackedView | static/swaggerui/swagger-ui-standalone-preset.js:2 | Packing 32 slots into a bitmap node (`fe`) keeps every slot. |
| HashTrie.SplitCorrect | static/swaggerui/swagger-ui-standalone-preset.js:2 | `ae`: splitting two leaves, or a leaf and a collision, at any depth gives a well-shaped tree that holds both. |
| HashTrie.CollisionRemove | static/swaggerui/swagger-ui-standalone-preset.js:2 | Removing from a collision node, down to a single leaf, keeps shape and holds just the other pairs. |
| HashTrie.CollisionSet | static/swaggerui/swagger-ui-standalone-preset.js:2 | Setting in a collision node replaces one pair or adds one of the same hash, and keeps shape. |
| HashTrie.LeafMovesUp | static/swaggerui/swagger-ui-standalone-preset.js:2 | A lone leaf may take the place of its parent: it is well-shaped one level higher. |
| HashTrie.BitmapRebuilt | static/swaggerui/swagger-ui-standalone-preset.js:2 | The end of a bitmap node update, with growth into a 32-slot node and collapse into a lone leaf, is the same 32 slots with one changed, and well-shaped. |
| HashTrie.HashArrayRebuilt | static/swaggerui/swagger-ui-standalone-preset.js:2 | The end of a 32-slot node update, with packing below 8 children, is the same 32 slots with one changed, and well-shaped. |
| HashTrie.UpdateBitmapCorrect | static/swaggerui/swagger-ui-standalone-preset.js:2 | `Zt.update`: shape, held pairs and the two change flags are what setting or removing k means. |
| HashTrie.UpdateHashArrayCorrect | static/swaggerui/swagger-ui-standalone-preset.js:2 | `Vt.update`: the same for a 32-slot node. |
| HashTrie.UpdateCorrect | static/swaggerui/swagger-ui-standalone-preset.js:2 | `update` of any node kind: shape is kept, the pairs held are the old ones with that of k set or removed, and the flags say whether anything and whether the number of keys changed. |
| HashTrie.ShapedHolds | static/swaggerui/swagger-ui-standalone-preset.js:2 | No well-shaped node below the root is empty. |
| PersistentMap.MoveCorrect | static/swaggerui/swagger-ui-standalone-preset.js:2 | `ce`: moving the entries of a full array node into a trie keeps all of them. |
| PersistentMap.ArrayMapCorrect | static/swaggerui/swagger-ui-standalone-preset.js:2 | `$t.update`: the array node at the root, including its conversion beyond 8 entries. |
| PersistentMap.UpdateRootCorrect | static/swaggerui/swagger-ui-standalone-preset.js:2 | `update` of the root of whatever kind. |
| PersistentMap.GetRefines | static/swaggerui/swagger-ui-standalone-preset.js:2 | `get` is lookup in the mathematical map the trie stands for. |
| PersistentMap.LookupAfterUpdate | static/swaggerui/swagger-ui-standalone-preset.js:2 | After set or remove of k, a lookup gives the new result at k and the old one at every other key, across all conversions. |
| PersistentMap.UpdateRefines | static/swaggerui/swagger-ui-standalone-preset.js:2 | set and remove are update and removal of the mathematical map, and keep the invariant. |
| PersistentMap.SizeRefines | static/swaggerui/swagger-ui-standalone-preset.js:2 | The size field is the number of keys. |
| PersistentMap.IterateRefines | static/swaggerui/swagger-ui-standalone-preset.js:2 | Iteration meets every key once, with its value. |
| PersistentMap.UpdateToSame | static/swaggerui/swagger-ui-standalone-preset.js:2 | An update that changes nothing returns the very map. |
| PersistentMap.RunFromRefines | static/swaggerui/swagger-ui-standalone-preset.js:2 | After any sequence of set, remove and clear on any map, contents and size are what the sequence means. |
| PersistentMap.ReachableRefines | static/swaggerui/swagger-ui-standalone-preset.js:2 | In every state reachable from the empty map: contents, size, lookups and the shape of the trie. |
| TransientTrie.Cell.Update | static/swaggerui/swagger-ui-standalone-preset.js:2 | An update in memory with an owner token: what it does to the value of the node is `HashTrie.Update`, it writes only to nodes of its own session, unless a pair leaks, and then it changes just that pair, and it keeps track of the keys whose pair from before is still there and of those where it lies in a leaf of the session. |
| TransientTrie.Cell.Split | static/swaggerui/swagger-ui-standalone-preset.js:2 | `ae` in memory: new nodes, the value of `HashTrie.Split`, nothing old changed. |
| TransientTrie.Cell.PackSlots | static/swaggerui/swagger-ui-standalone-preset.js:2 | `fe` in memory: a new bitmap node with all the children. |
| TransientTrie.Cell.ExpandBitmap | static/swaggerui/swagger-ui-standalone-preset.js:2 | `le` in memory: a new 32-slot node with all the children and the new one. |
| TransientTrie.Cell.Lookup | static/swaggerui/swagger-ui-standalone-preset.js:2 | `get` in memory reads the value of the tree. |
| TransientTrie.Cell.LeakFound | static/swaggerui/swagger-ui-standalone-preset.js:2 | A pair can leak only where the key is already in the tree, and during a session exactly where the key is loose, one whose pair from before has come into a leaf of the session, and gets another value. |
| TransientTrie.Cell.Elsewhere | static/swaggerui/swagger-ui-standalone-preset.js:2 | An update of k tells a session nothing about nodes that hold no key of its hash: they stay valid with what is known after it. |
| TransientTrie.Cell.Freezes | static/swaggerui/swagger-ui-standalone-preset.js:2 | When a session is over, all of its nodes can be counted among those that later sessions must not change. |
| TransientMap.MutableMap.Put | static/swaggerui/swagger-ui-standalone-preset.js:2 | `oe` on a map object: the new value is `PersistentMap.UpdateMap` of the old, in place if and only if the map has an owner token. |
| TransientMap.MutableMap.Lookup | static/swaggerui/swagger-ui-standalone-preset.js:2 | `get` on a map object is the lookup in its value. |
| TransientMap.MutableMap.Apply | static/swaggerui/swagger-ui-standalone-preset.js:2 | One update of a session: the value changes as on the persistent map, nothing outside the session changes, and what is known of the keys moves on. |
| TransientMap.MutableMap.LeakIsFirst | static/swaggerui/swagger-ui-standalone-preset.js:2 | The next update writes to a pair from before the session if and only if `Sessions.FirstLeak` says so, and if it does not, the first leak stays where it was. |
| TransientMap.MutableMap.ApplyAll | static/swaggerui/swagger-ui-standalone-preset.js:2 | The updates of a session in order stop at the first that leaks, at the number that `Sessions.FirstLeak` gives for the map and the updates; up to there the value is that of the same updates done persistently and nothing from before has changed. |
| TransientMap.MutableMap.WithMutations | static/swaggerui/swagger-ui-standalone-preset.js:2 | `withMutations`: it leaks if and only if `Sessions.Leaks` holds of the value of the map and the updates; if not, every earlier node and pair is unchanged, and so is the map itself, and the result is that of the same updates done persistently; if so, pairs of an earlier map have changed, all of them of the key that the first leaking update sets, and to its value. |
| TransientMap.ResultJoins | static/swaggerui/swagger-ui-standalone-preset.js:2 | The result of a session can be counted among the maps that later sessions must not change. |
| TransientMap.Create | static/swaggerui/swagger-ui-standalone-preset.js:2 | `ce` in memory is `PersistentMap.Create`. |
| TransientMap.UpdateArray | static/swaggerui/swagger-ui-standalone-preset.js:2 | `$t.update` in memory, in place or not. |
| TransientMap.OldMapChanges | static/swaggerui/swagger-ui-standalone-preset.js:2 | A concrete leak through a map object: two keys of equal hash, `withMutations` with remove of one and set of the other, and `get` on the map before the session reads the new value. The map is the one that `set` and `remove` reach from the empty map. |
| TwoKeys.TwoReached | static/swaggerui/swagger-ui-standalone-preset.js:2 | Nine `set`s of keys of one hash and seven `remove`s lead from the empty map to the map of two keys whose root is their collision node. |
| TwoKeys.TwoLeak | static/swaggerui/swagger-ui-standalone-preset.js:2 | On that map remove of the one key and set of the other leak, at the second update. |
| Sessions.SmallMapSafe | static/swaggerui/swagger-ui-standalone-preset.js:2 | A session of a map whose root is an array node, at most 8 keys, never leaks. |
| Sessions.NoRemovalSafe | static/swaggerui/swagger-ui-standalone-preset.js:2 | A session that removes no key never leaks. |
| Sessions.DifferentHashesSafe | static/swaggerui/swagger-ui-standalone-preset.js:2 | A session over keys of pairwise different hashes never leaks. |
| Sessions.RemoveThenSetLeaks | static/swaggerui/swagger-ui-standalone-preset.js:2 | In a trie, removing one of just two keys of a hash and setting the other to something else leaks. |
| Sessions.MatesAreMates | static/swaggerui/swagger-ui-standalone-preset.js:2 | The other entries of the collision node of k are the other keys of its hash in the map. |
| LinkedMap.Links.AppendOk | static/swaggerui/swagger-ui-standalone-preset.js:2 | A new entry at the end keeps the list: links in pairs, ends right, and every entry, removed ones too, leads back to an older one and past no live one. |
| LinkedMap.Links.RemoveOk | static/swaggerui/swagger-ui-standalone-preset.js:2 | Unlinking an entry keeps the same, though its own links stay. |
| LinkedMap.LinkedMap.Find | static/swaggerui/swagger-ui-standalone-preset.js:2 | `getEntry`: the entry in the place that `fastKey` gives the key; for a frozen object the oldest entry that is `==` to it. |
| LinkedMap.LinkedMap.Get | static/swaggerui/swagger-ui-standalone-preset.js:2 | `get`: the value of the entry found, or nothing. |
| LinkedMap.LinkedMap.Put | static/swaggerui/swagger-ui-standalone-preset.js:2 | `set`: the value of the entry found is replaced and nothing else, or one entry is added at the end; list, index, `first`, `last` and `size` stay consistent. |
| LinkedMap.LinkedMap.Remove | static/swaggerui/swagger-ui-standalone-preset.js:2 | `delete`: the entry found is unlinked and flagged and nothing else; the result says whether there was one. |
| LinkedMap.LinkedMap.Clear | static/swaggerui/swagger-ui-standalone-preset.js:2 | `clear`: every entry is flagged and the live ones lose their way back, the map is empty and consistent, and iterations under way can still find back. |
| LinkedMap.LinkedMap.Anchor | static/swaggerui/swagger-ui-standalone-preset.js:2 | The way back over removed entries ends at the newest live entry not newer than the start, or at none. |
| LinkedMap.CoversNext | static/swaggerui/swagger-ui-standalone-preset.js:2 | From there the next entry is newer than all visited and no live entry is passed over; without one, all live entries were visited. |
| LinkedMap.LinkedMap.ForEach | static/swaggerui/swagger-ui-standalone-preset.js:2 | `forEach` while each callback sets, deletes and clears at will: each call is on the oldest live entry newer than the one before, as the map then is, with its key and value of that moment; in the end the map is what all those operations, in that order, make of it, and no live entry is left to visit. So no entry comes twice, all come in insertion order, and every entry live at the end was visited. |
| LinkedMap.RunsAgree | static/swaggerui/swagger-ui-standalone-preset.js:2 | The entries of the start and the operations of the callbacks decide every call of such a run, and how many there are. |
| LinkedMap.DeletedUnvisited | static/swaggerui/swagger-ui-standalone-preset.js:2 | An entry deleted before its turn is not visited. |
| LinkedMap.LinkedMap.Perform | static/swaggerui/swagger-ui-standalone-preset.js:2 | A series of `set`, `delete` and `clear` changes the list of keys and values as the same updates of the list in insertion order do: the oldest entry that the key finds is replaced or flagged, or a new one goes last. |
| LinkedMap.Cursor.Next | static/swaggerui/swagger-ui-standalone-preset.js:2 | `next` of an iterator: the same, and once it is done it stays done. |
| LinkedMap.Cursor.Change | static/swaggerui/swagger-ui-standalone-preset.js:2 | Any change to the map between two calls of `next` leaves the iterator sound, and is that change. |
| LinkedMap.LookupIsExact | static/swaggerui/swagger-ui-standalone-preset.js:2 | A lookup ends at the entry of just that key, or at none if it has none, if and only if: for a frozen object, no older entry is merely `==` to it; for any other key, no other key has an entry in its place of the index. |
| LinkedMap.IndexShared | static/swaggerui/swagger-ui-standalone-preset.js:2 | `fastKey` gives two keys one place if and only if they are one key, or are a number, a bigint or a special value with one text. |
| LinkedMap.FrozenReadsPrimitive | static/swaggerui/swagger-ui-standalone-preset.js:2 | A concrete case: a lookup of a frozen object never set reads the value of the primitive 7. |
| LinkedMap.BigIntReadsNumber | static/swaggerui/swagger-ui-standalone-preset.js:2 | A concrete case: a lookup of the bigint 1n never set reads the value of 1. |
| Writable.Writable.PrefinishStep | static/swaggerui/swagger-ui-standalone-preset.js:2 | `prefinish`: emitted once, or `_final` queued once. |
| Writable.Writable.FinishMaybe | static/swaggerui/swagger-ui-standalone-preset.js:2 | `finishMaybe`: finish exactly when it is needed and no callback is pending. |
| Writable.Writable.AfterWriteNow | static/swaggerui/swagger-ui-standalone-preset.js:2 | `afterWrite`: drain if the buffer is empty and someone waits for it, then the callback, then perhaps finish. |
| Writable.Writable.Deliver | static/swaggerui/swagger-ui-standalone-preset.js:2 | `doWrite`: the chunk goes to `_write` next in order; if that answers at once its callback is queued. |
| Writable.Writable.ClearBuffer | static/swaggerui/swagger-ui-standalone-preset.js:2 | `clearBuffer`: requests go out in order until one is not answered at once; the count and the rest are right. |
| Writable.Writable.AnswerLater | static/swaggerui/swagger-ui-standalone-preset.js:2 | `onwrite` after `_write` returned: the next requests go out unless corked, then the callback of the write runs. |
| Writable.Writable.Write | static/swaggerui/swagger-ui-standalone-preset.js:2 | `write` accepts the chunk unless the stream is ending, delivers or buffers it, and returns whether the lengths of all chunks not yet delivered and of the one that is out, or in object mode their number, stay below the high water mark; if not a drain is owed. |
| Writable.Writable.Uncork | static/swaggerui/swagger-ui-standalone-preset.js:2 | `uncork`: the last one sends out what is buffered. |
| Writable.Writable.End | static/swaggerui/swagger-ui-standalone-preset.js:2 | `end`: all corks are off and the stream is ending. |
| Writable.Writable.NextTick | static/swaggerui/swagger-ui-standalone-preset.js:2 | A queued tick: the rest of a write answered at once, or the call of `_final`. |
| Writable.Writable.FinalLater | static/swaggerui/swagger-ui-standalone-preset.js:2 | The answer of `_final`: prefinish, and perhaps finish. |
| Writable.Writable.Run | static/swaggerui/swagger-ui-standalone-preset.js:2 | Any run of calls, answers and ticks: the chunks taken are those written before the end, in order, and all accounts hold after it. |
| Writable.Writable.LengthIs | static/swaggerui/swagger-ui-standalone-preset.js:2 | At every moment `length` is the sum of the lengths, or in object mode the number, of the chunks not yet delivered and the one that is out. |
| Writable.Writable.Conserved | static/swaggerui/swagger-ui-standalone-preset.js:2 | At every moment every chunk taken went to `_write` once and in order, or waits in the buffer, and `length` is what is buffered plus what is out. |
| Writable.Writable.FinishIsLast | static/swaggerui/swagger-ui-standalone-preset.js:2 | finish comes once, after end, prefinish and every callback, each called once, and after delivery of everything; no event follows. |
| Writable.Writable.Quiet | static/swaggerui/swagger-ui-standalone-preset.js:2 | When nothing is under way everything has been delivered, an ended stream has finished, and no drain is owed. |
| Utf8.DecodeEncode | static/swaggerui/swagger-ui-standalone-preset.js:2 | Decoding the encoding of any code points gives them back. |
| Utf8.RoundTrip | static/swaggerui/swagger-ui-standalone-preset.js:2 | Decoding the encoding of a string without lone surrogates returns it. |
| Utf8.UnitsScalars | static/swaggerui/swagger-ui-standalone-preset.js:2 | Reading such a string as code points and writing those as units returns it. |
| Utf8.EncodeString | static/swaggerui/swagger-ui-standalone-preset.js:2 | `q`: the encoding of what fits of the code points it sees, lone surrogates read as U+FFFD. |
| Utf8.FitIsLongest | static/swaggerui/swagger-ui-standalone-preset.js:2 | What fits is the longest prefix of whole code points within the budget. |
| Utf8.EncodesAll | static/swaggerui/swagger-ui-standalone-preset.js:2 | Without a budget `q` encodes the whole string if and only if it does not end in two high surrogates. |
| Utf8.EncodesWhatFits | static/swaggerui/swagger-ui-standalone-preset.js:2 | With a budget `q` gives the longest prefix that fits if and only if the budget is not 0, or nothing is to encode, and no lost high surrogate would have fitted. |
| Utf8.LosesHigh | static/swaggerui/swagger-ui-standalone-preset.js:2 | A concrete case: of two high surrogates `q` encodes one, with no budget and with one that would hold both. |
| Utf8.ZeroIsNoLimit | static/swaggerui/swagger-ui-standalone-preset.js:2 | A concrete case: with a budget of 0 `q` writes a byte. |
| Utf8.DecodeBytes | static/swaggerui/swagger-ui-standalone-preset.js:2 | `N`: the decoding of a part of the bytes, one U+FFFD for each byte that starts no valid form. |
| Utf8.DecodeExactly | static/swaggerui/swagger-ui-standalone-preset.js:2 | Of any bytes at all: where they begin with the encoding of a code point, its units come first and then the decoding of what is behind it; where they begin with none, one replacement character and then the decoding of what is behind the first byte. |
| Utf8.ReadEncoded | static/swaggerui/swagger-ui-standalone-preset.js:2 | `N` reads back each code point that the encoding of section 3 of RFC 3629 wrote. |
| StringDecoder.ChunksDoNotMatter | static/swaggerui/swagger-ui-standalone-preset.js:2 | For well-formed UTF-8 and every cut into chunks, empty ones included, the results of write and end together are the decoding in one go. |
| StringDecoder.CutText | static/swaggerui/swagger-ui-standalone-preset.js:2 | If the text is cut off anywhere: its whole code points, and one U+FFFD if the cut is inside one. |
| StringDecoder.OneGoOnCutText | static/swaggerui/swagger-ui-standalone-preset.js:2 | Such text decodes alike in one go if and only if at most one byte is left over. |
| StringDecoder.TwoBytesLeftOver | static/swaggerui/swagger-ui-standalone-preset.js:2 | A concrete case: two of the three bytes of U+20AC give one replacement character in chunks and two in one go. |
| StringDecoder.WriteGood | static/swaggerui/swagger-ui-standalone-preset.js:2 | One chunk of well-formed text, from any state: the code points it completes, and what is kept. |
| StringDecoder.TextGood | static/swaggerui/swagger-ui-standalone-preset.js:2 | `utf8Text`: the whole code points of a chunk, and the cut one kept. |
| StringDecoder.FillGood | static/swaggerui/swagger-ui-standalone-preset.js:2 | `utf8FillLast`: the kept code point completed, or more of it kept. |
| StringDecoder.CutAt | static/swaggerui/swagger-ui-standalone-preset.js:2 | `utf8CheckIncomplete` recognises a cut form from its last bytes, and how much is missing. |
| StringDecoder.CutExactly | static/swaggerui/swagger-ui-standalone-preset.js:2 | `utf8CheckIncomplete` on any bytes: a cut form is reported if and only if they end with a lead byte and fewer continuation bytes than it asks for, with what is lacking. |
| StringDecoder.BrokenOff | static/swaggerui/swagger-ui-standalone-preset.js:2 | A kept code point that is broken off after m more bytes is replaced by one character, and the text goes on with the byte that broke it off. |
| StringDecoder.Utf8Decoder.Write | static/swaggerui/swagger-ui-standalone-preset.js:2 | `write` on any bytes, malformed ones too, is the step function. |
| StringDecoder.Utf8Decoder.Text | static/swaggerui/swagger-ui-standalone-preset.js:2 | `utf8Text` on the fields is its step function. |
| StringDecoder.Utf8Decoder.FillLast | static/swaggerui/swagger-ui-standalone-preset.js:2 | `utf8FillLast` on the fields is its step function, with all its replies to malformed bytes. |
| StringDecoder.DecodeChunks | static/swaggerui/swagger-ui-standalone-preset.js:2 | A fresh decoder fed with chunks and ended gives the text of the chunks. |
| HashStream.GapIsLeast | static/swaggerui/swagger-ui-standalone-preset.js:2 | The zeros of the padding are as few as let the message end with a block (sections 5.1.1 and 5.1.2 of FIPS 180-4). |
| HashStream.BigEndianValue | static/swaggerui/swagger-ui-standalone-preset.js:2 | The length field holds the number written. |
| HashStream.PaddedForm | static/swaggerui/swagger-ui-standalone-preset.js:2 | The padded message is the message, a 1 bit, zeros up to the field, and in the field the number of bits of the message, the most significant byte first, in whole blocks, as section 5.1 of FIPS 180-4 has it. |
| HashStream.Hash.Update | static/swaggerui/swagger-ui-standalone-preset.js:2 | `update`: whatever pieces came before, all whole blocks of the message have gone to `_update` and the rest is in the block. |
| HashStream.Hash.Digest | static/swaggerui/swagger-ui-standalone-preset.js:2 | `digest`: `_update` has been given the blocks of the padded message, for every block size with room for 64 bits of length. |
| HashStream.CutIsUnique | static/swaggerui/swagger-ui-standalone-preset.js:2 | What is cut determines its blocks. |
| HashStream.HashPieces | static/swaggerui/swagger-ui-standalone-preset.js:2 | Any two ways to hand over a message below 2^53 bytes give `_update` the same blocks, those of the padded message. |
| OrderedMap.UpdateValid | static/swaggerui/swagger-ui-standalone-preset.js:2 | `qe` keeps index and list in agreement, when it closes the holes too. |
| OrderedMap.UpdateRefines | static/swaggerui/swagger-ui-standalone-preset.js:2 | `qe` is the update of a list of pairs: a set key keeps its place, a new one goes last, a removal keeps the order; compaction changes nothing. |
| OrderedMap.UpdateTight | static/swaggerui/swagger-ui-standalone-preset.js:2 | With m keys the list stays within m + max(31, m + 1) places. |
| OrderedMap.UpdatePlaces | static/swaggerui/swagger-ui-standalone-preset.js:2 | Holes are closed just by a removal from a list of 32 places or more of which at most half hold keys, and then all are; otherwise every other key keeps its place, and the list changes by one place at most. |
| OrderedMap.EntriesCompact | static/swaggerui/swagger-ui-standalone-preset.js:2 | Closing the holes keeps the other pairs in order. |
| OrderedMap.CountEntries | static/swaggerui/swagger-ui-standalone-preset.js:2 | The size is the number of pairs. |
| OrderedMap.ReachableRefines | static/swaggerui/swagger-ui-standalone-preset.js:2 | In every reachable state: iteration, size, lookups, distinct keys and the bound on the list. |
| RangeSet.AddMeans | static/swaggerui/swagger-ui-standalone-preset.js:2 | `add` is union for any list of ranges in any order, and any new range. |
| RangeSet.AddExactly | static/swaggerui/swagger-ui-standalone-preset.js:2 | What `add` leaves of any list: the ranges before the first that overlaps or adjoins the new one stay; it and those that do so one after the other, as it grows, become one range, their hull; the rest stays. If none does, the new range goes last. |
| RangeSet.AddKeepsSorted | static/swaggerui/swagger-ui-standalone-preset.js:2 | `add` of a range that is not reversed leaves a sorted list sorted and apart if and only if some range overlaps or adjoins it or all are below it, and then `length` is the number of members of both. |
| RangeSet.AddAllMeans | static/swaggerui/swagger-ui-standalone-preset.js:2 | `add` of a whole set is union. |
| RangeSet.SubtractMeans | static/swaggerui/swagger-ui-standalone-preset.js:2 | On a sorted list `subtract` is difference. |
| RangeSet.SubtractKeepsSorted | static/swaggerui/swagger-ui-standalone-preset.js:2 | It leaves the list sorted and apart if and only if its argument is not reversed or overlaps nothing. |
| RangeSet.ReversedTangles | static/swaggerui/swagger-ui-standalone-preset.js:2 | A concrete case: 0 to 100 without the reversed range from 60 to 40 becomes two ranges that overlap. |
| RangeSet.SubtractExact | static/swaggerui/swagger-ui-standalone-preset.js:2 | On any list without reversed ranges, in order or not, `subtract` of any range is difference if and only if no range behind the first run that the argument overlaps shares a member with it. |
| RangeSet.SortedReaches | static/swaggerui/swagger-ui-standalone-preset.js:2 | On a sorted list there is no such range. |
| RangeSet.SubtractAllExact | static/swaggerui/swagger-ui-standalone-preset.js:2 | `subtract` of any set from any such list is difference after every single range if and only if that condition holds for each range when its turn comes. |
| RangeSet.SubtractAllLeaves | static/swaggerui/swagger-ui-standalone-preset.js:2 | What it leaves in the end: the members that no range of the set takes, one that contains them and finds them in the first run or before it when its turn comes. |
| RangeSet.SubtractAllDifference | static/swaggerui/swagger-ui-standalone-preset.js:2 | In the end `subtract` of any set from any such list is difference if and only if every member of both is taken at some turn. |
| RangeSet.RepeatedReaches | static/swaggerui/swagger-ui-standalone-preset.js:2 | A concrete case: a set whose range 43 comes twice ends in the difference, which was missed on the way. |
| RangeSet.SubtractAllBounds | static/swaggerui/swagger-ui-standalone-preset.js:2 | In any case it leaves no less than the difference and nothing that was not there. |
| RangeSet.SubtractAllMeans | static/swaggerui/swagger-ui-standalone-preset.js:2 | From a sorted list `subtract` of a set is difference as long as no range but its last is reversed, and leaves the list sorted if the last is not either. |
| RangeSet.ReversedHidesMember | static/swaggerui/swagger-ui-standalone-preset.js:2 | A concrete case: from 0 to 100 a set that `add` builds, with a reversed range in front, is subtracted and its member 43 is still there. |
| RangeSet.IntersectAllMeans | static/swaggerui/swagger-ui-standalone-preset.js:2 | On a sorted list `intersect` with any set is intersection. |
| RangeSet.IntersectAllSorted | static/swaggerui/swagger-ui-standalone-preset.js:2 | `intersect` of two sorted lists is sorted and apart. |
| RangeSet.LengthCounts | static/swaggerui/swagger-ui-standalone-preset.js:2 | On a sorted list `length` is the number of members. |
| RangeSet.IndexIn | static/swaggerui/swagger-ui-standalone-preset.js:2 | `index` finds members in any list, reversed ranges included, unless its argument is below 0 and below the length of the first range: then it counts back from that range. |
| RangeSet.IndexStops | static/swaggerui/swagger-ui-standalone-preset.js:2 | `index` raises if and only if no total length of the first few ranges is above its argument. |
| RangeSet.IndexEnumerates | static/swaggerui/swagger-ui-standalone-preset.js:2 | On a sorted list `index` runs through exactly the members, ascending, from 0 to length - 1, and does not raise. |
| RangeSet.CopySorted | static/swaggerui/swagger-ui-standalone-preset.js:2 | A clone of a sorted list is sorted. |
| RangeSet.DiscontinuousRange.Add | static/swaggerui/swagger-ui-standalone-preset.js:2 | The loops of `add` are `AddOne`, and `length` is recomputed. |
| RangeSet.DiscontinuousRange.Subtract | static/swaggerui/swagger-ui-standalone-preset.js:2 | The loops of `subtract` are `SubtractOne`. |
| RangeSet.DiscontinuousRange.SubtractSet | static/swaggerui/swagger-ui-standalone-preset.js:2 | `subtract` of a whole set is `SubtractAll`. |
| RangeSet.DiscontinuousRange.IntersectSet | static/swaggerui/swagger-ui-standalone-preset.js:2 | The loops of `intersect` are `IntersectAll`. |
| RangeSet.DiscontinuousRange.At | static/swaggerui/swagger-ui-standalone-preset.js:2 | The loop of `index` is `Index`, running off the end of the list included. |
| RangeSet.DiscontinuousRange.Clone | static/swaggerui/swagger-ui-standalone-preset.js:2 | `clone` adds range by range and leaves the original alone. |
| RandExp.ExpandMeans | static/swaggerui/swagger-ui-standalone-preset.js:2 | `_expand`: a clean set, in which each negation has nothing that its subtraction misses, becomes the characters of the default range that belong to it, at any depth of nesting. |
| RandExp.ExpandExact | static/swaggerui/swagger-ui-standalone-preset.js:2 | For a set over clean members that is so if and only if it is clean itself, which can be told from the ranges that its subtraction passes by. |
| RandExp.ForwardClean | static/swaggerui/swagger-ui-standalone-preset.js:2 | A set without reversed ranges, at any depth, is clean. |
| RandExp.MembersClean | static/swaggerui/swagger-ui-standalone-preset.js:2 | What the parser puts in a set is clean: characters, ranges either way round, and classes such as `\W`, which have no reversed ranges. |
| RandExp.DrawnExactly | static/swaggerui/swagger-ui-standalone-preset.js:2 | `randInt` gives just the integers from a to b, and with the bounds the wrong way round those above b up to a. |
| RandExp.SetExact | static/swaggerui/swagger-ui-standalone-preset.js:2 | Whatever is drawn, a set over clean members gives a character of its own, or nothing if it has none, if and only if it is safe: clean if negated, and else with a length that is above 0, or 0 with nothing in its expansion, or below 0 with every place counted back to in the set. |
| RandExp.ForwardSafe | static/swaggerui/swagger-ui-standalone-preset.js:2 | A set without reversed ranges is safe. |
| RandExp.NegatedReversed | static/swaggerui/swagger-ui-standalone-preset.js:2 | A concrete case: the set `[^z-anb]` may give the b that it excludes. |
| RandExp.ReversedRaises | static/swaggerui/swagger-ui-standalone-preset.js:2 | A concrete case: for the set `[z-a]` `index` raises whatever is drawn, and nothing else happens. |
| RandExp.GivesBounded | static/swaggerui/swagger-ui-standalone-preset.js:2 | Whatever is drawn, a tree whose repetitions have their bounds in order gives no string above the length bound. |
| RandExp.GivesMatch | static/swaggerui/swagger-ui-standalone-preset.js:2 | If its sets are safe as well nothing raises, and the string belongs to the language of the tree when every set has a character and there is no anchor or lookaround. |
| RandExp.GivesExactly | static/swaggerui/swagger-ui-standalone-preset.js:2 | Of a plain tree without reversed ranges and bounds, just the strings of its language may be drawn that take no open repetition more than `max` times above its minimum and no character for a set outside the default range: all of them, and no other. |
| RandExp.RepetitionExact | static/swaggerui/swagger-ui-standalone-preset.js:2 | Whatever is drawn, what a repetition of such a tree gives is within the bound and in the language if and only if its minimum is not above its maximum. |
| RandExp.ReversedCount | static/swaggerui/swagger-ui-standalone-preset.js:2 | A concrete case: `a{3,1}` gives one of aa and aaa, the bound is 1 and no string is in the language. |
| RandExp.RandExp.Expand | static/swaggerui/swagger-ui-standalone-preset.js:2 | `_expand` on range sets is that list of ranges. |
| RandExp.RandExp.Gen | static/swaggerui/swagger-ui-standalone-preset.js:2 | `_gen` of any tree that the parser hands over gives one of the results that `Gives` has for it, an exception being one; so the bound holds if the repetitions are in order, and if the sets are safe too it does not raise and the string belongs to the language. |
| RandExp.RandExp.GenSet | static/swaggerui/swagger-ui-standalone-preset.js:2 | A set token, with any ranges, gives nothing when the length of its expansion is 0, and else what `index` has for one of the numbers that `randInt` may give, or its exception. |
| Base64.RoundTrip | static/swaggerui/swagger-ui-standalone-preset.js:2 | Decoding the encoding of any bytes returns them, and `byteLength` of the encoding is their number. |
| Base64.AlphabetIs | static/swaggerui/swagger-ui-standalone-preset.js:2 | The tables are the alphabet of section 4 of RFC 4648; `-` and `_` are read like `+` and `/`, and any other character counts 0. |
| Base64.Vectors | static/swaggerui/swagger-ui-standalone-preset.js:2 | Vectors of section 10 of RFC 4648. |
| Base64.FromByteArray | static/swaggerui/swagger-ui-standalone-preset.js:2 | `fromByteArray` in pieces of 16383 bytes equals the encoding in one piece. |
| Base64.ToByteArray | static/swaggerui/swagger-ui-standalone-preset.js:2 | `toByteArray` on any string, malformed ones and its errors included, is the decoding function. |
| Base64.FoursThrees | static/swaggerui/swagger-ui-standalone-preset.js:2 | The groups of four letters and of three bytes are inverse to each other. |
| Base64.TailRest | static/swaggerui/swagger-ui-standalone-preset.js:2 | So are the padded tails. |
| BufferList.ConsumedConserves | static/swaggerui/swagger-ui-standalone-preset.js:2 | What is taken is the first n units and what is left is the rest. |
| BufferList.BufferList.Push | static/swaggerui/swagger-ui-standalone-preset.js:2 | `push`: one chunk more at the end. |
| BufferList.BufferList.Unshift | static/swaggerui/swagger-ui-standalone-preset.js:2 | `unshift`: one chunk more at the front. |
| BufferList.BufferList.Shift | static/swaggerui/swagger-ui-standalone-preset.js:2 | `shift`: the first chunk, and the list without it. |
| BufferList.BufferList.Consume | static/swaggerui/swagger-ui-standalone-preset.js:2 | `consume` takes just those units by whichever of its ways, and head, tail and length fit what is left if and only if there were n units. |
| BufferList.ConsumeTooMuch | static/swaggerui/swagger-ui-standalone-preset.js:2 | A concrete case: three units out of two leave a list that holds both, with a `length` of 0. |
| BufferList.BufferList.GetString | static/swaggerui/swagger-ui-standalone-preset.js:2 | `_getString`, over whole and partial last chunks. |
| BufferList.BufferList.GetBuffer | static/swaggerui/swagger-ui-standalone-preset.js:2 | `_getBuffer`, likewise. |
| Delegating.Anchorer.Delegation | src/keria/app/delegating.py:50-74 | `delegation`: the checks in their order, the proxy taken before the check of the delegator, the message to the receiptor and the pin. |
| Delegating.Anchorer.Complete | src/keria/app/delegating.py:76-96 | `complete`: no record, another digest, or yes. |
| Delegating.Anchorer.Send | src/keria/app/delegating.py:167-214 | The body of the witness pass on one entry. |
| Delegating.Anchorer.ProcessPartialWitnessEscrow | src/keria/app/delegating.py:160-214 | The witness pass over a snapshot, in any order, up to the first entry that raises. |
| Delegating.Anchorer.Approve | src/keria/app/delegating.py:132-158 | The body of the anchor pass on one entry. |
| Delegating.Anchorer.ProcessUnanchoredEscrow | src/keria/app/delegating.py:128-158 | The anchor pass over a snapshot, in any order. |
| Delegating.Anchorer.ProcessEscrows | src/keria/app/delegating.py:124-126 | Both passes, the second only if the first did not raise, and the invariant of all runs. |
| Delegating.DelegationKeeps | src/keria/app/delegating.py:50-74 | `delegation` keeps the invariant, when it raises too. |
| Delegating.SendEntryKeeps | src/keria/app/delegating.py:167-214 | So does a step of the witness pass. |
| Delegating.AnchorEntryKeeps | src/keria/app/delegating.py:132-158 | So does a step of the anchor pass. |
| Delegating.WitnessPassRaises | src/keria/app/delegating.py:193-202 | The witness pass raises if and only if an entry has its receipts and nobody to send it, in whatever order. |
| Delegating.StuckEntryAborts | src/keria/app/delegating.py:193-202 | A concrete case: of two entries that are ready one has nobody to send it; met first it keeps the other waiting, met last it still makes the call raise. |
| Delegating.WitnessPassMoves | src/keria/app/delegating.py:167-214 | If not, just the entries with their receipts and cue move on. |
| Delegating.AnchorPassMoves | src/keria/app/delegating.py:132-158 | Just the anchored entries leave `dune`, all with a record, and records stay. |
| Delegating.ProcessedExactly | src/keria/app/delegating.py:124-214 | What a call of processEscrows raises and what it leaves in both escrows. |
| Delegating.NeverMoreWork | src/keria/app/delegating.py:124-214 | Twice the size of `dpwe` plus that of `dune` never grows in a call. |
| Delegating.OneCallEmpties | src/keria/app/delegating.py:124-214 | When every event has its receipts, cue, sender and anchor, one call empties both escrows. |
| Delegating.RunKeeps | src/keria/app/delegating.py:50-214 | The invariant holds after any mix of delegation calls, passes and deeds of others. |
| Delegating.DeedStep | src/keria/app/delegating.py:50-214 | Every deed has the step that did it, a call that names its event, or a pass in whose world and with whose proxy the send or the seal was right. |
| Delegating.NoStageSkipped | src/keria/app/delegating.py:50-214 | In every run, a record was preceded by the call for its event, with the number given or the latest; by a send of it at a later step with all receipts and, with witnesses, the cue, to its delegator, in the name of the member of a group or else of the proxy at that step or else, past inception, of the identifier itself; and by a seal that the same delegator had anchored, each true of the world of its step. |
| Delegating.CompleteForEver | src/keria/app/delegating.py:88-96 | From then on `complete` is true for that digest and raises for any other. |
| Delegating.SecondEventShutOut | src/keria/app/delegating.py:76-158 | A concrete case: of two anchored events at one number the first met keeps the record, and `complete` raises for the other. |
| Delegating.NothingLost | src/keria/app/delegating.py:73-74 | An event handed to delegation is in `dpwe`, in `dune`, or has a record at its prefix and number, through aborted passes too. |
| Delegating.SendsAccounted | src/keria/app/delegating.py:73-214 | Sends, plus one while in `dpwe`, never exceed the calls, event by event. |
| Delegating.FailedCallChangesProxy | src/keria/app/delegating.py:51-65 | A call raises if and only if the identifier is not local, its delegator unknown or the event missing; it then changes nothing but the proxy, and that if and only if the identifier is local and another proxy is given. |
| Delegating.FailedCallDecidesSender | src/keria/app/delegating.py:51-65 | A concrete case: a call that raises for one identifier makes the pass send the event of another for its proxy, where it would have raised. |

## Left out

- TransientMap.MutableMap.WithMutations: the function passed is a list of set, remove and clear, and the model stops at the first update that leaks, because from there on earlier maps differ; a session inside another one leaks by what the outer one has left of kept and loose keys.
- PersistentMap.IterateRefines: the order of iteration, which the code leaves to the hashes, and early exit from it.
- LinkedMap.LinkedMap.ForEach: the callback acts on this map only, and not through a second iteration of it; its other effects are not part of the model.
- LinkedMap.LinkedMap.Find: how fastKey puts marks on objects; an object that was frozen before it got one is a frozen object here, any other is not.
- Writable.Writable.Write: the conversion of strings to buffers and the checks of the chunk; the error that a write after end also reports; calls from inside `_write` or a callback.
- Writable.Writable.End: the callback given to `end`, and autoDestroy.
- Writable.Writable.ClearBuffer: `_writev`, and with it corkedRequestsFree.
- Writable.Writable.Run: the order of two callbacks of which one was queued and the other came with a later answer, which the code does not fix either.
- StringDecoder.Utf8Decoder.Write: the encodings other than UTF-8.
- HashStream.Hash.Digest: `_update` and `_hash` themselves, and strings as input.
- OrderedMap.Update: the owner-token variant, which assigns the same results to the fields of one object, and the List behind `_list`, taken as a sequence.
- RangeSet.DiscontinuousRange.Add: toString, numbers and subranges.
- RandExp.RandExp.Gen: ignoreCase, back-references and the parser of the expression.
- Base64.ToByteArray: trailing whitespace and missing padding, which the caller removes and adds before.
- BufferList.BufferList.Consume: an empty list, on which it raises; join, concat and inspect.
- Delegating.Anchorer.Approve: the authorizer seal that setAes attaches to the latest event of the identifier.
- Delegating.Anchorer.Send: what is in the message to the delegator, and the postman.
- Delegating.Anchorer.ProcessEscrows: the coroutine around it and its timing.
- The HTTP endpoint `DelegatorEnd`, approveDelegation, signatures, encodings and LMDB.
- Duplicates of these modules in `static/swaggerui/swagger-ui-es-bundle-core.js`, the user interface, YAML, lodash and other polyfills.
