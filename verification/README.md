# cedar double-array trie, modelled in Dafny

This project models the core of cedar-java, a double-array trie. It stores
byte-string keys with 32-bit values in four node columns:

- `base` and `check` are the double array;
- `child` and `sibling` hold the labels, so children can be listed in order.

The columns are split into blocks of 256 slots. An allocator manages them:

- Each block keeps a ring of free slots, threaded through negated `base`/`check` values.
- Each block sits on one of three block lists (Open, Closed, Full), doubly linked through `next`/`prev`.
- A `reject` table prunes the search for a free place.

Two variants share the allocator (`BaseCedar`):

- the standard trie (`Cedar`), where a key ends in a terminal node with label 0 whose base is the value;
- the reduced trie (`ReducedCedar`), where a leaf stores its value in its own base, values are non-negative, and internal nodes hold bases that are negated and less one.

The model covers:

- the byte-buffer primitives of `CedarBuffer`;
- the allocator: block lists, free rings, `add_block`, `find_place`, `find_places`, `pop_e_node` and `push_e_node`;
- sibling lists: `push_sibling`, `pop_sibling`, `consult` and `set_child`;
- relocation on conflict (`resolve`);
- `follow`, `update`, `find`, `get` and `erase` in both variants;
- the traversals `begin`, `next` and `suffixBytes`;
- the three iterators (common prefixes, predict and scan);
- the binary image (`serialize` / `deserialize`).

## How the model is built

The modules, from the bottom up:

- **Outcomes**: `Result<T>` and `Option<T>`. A `Fault` is one of:
  - `OutOfBounds`: an index falls outside a column. The source reads its columns through unchecked offsets (`BOUNDS_CHECK` is false, CedarBuffer.java:12), so what it does there is not modelled;
  - `Diverges`: a walk along stored links exceeds the bound the structure guarantees, so the Java code would loop forever;
  - `EmptyKey`: `update` rejects the empty key.
- **Bits**: byte labels, Java's signed bytes, and the label xor `base ^ u32(label)` on arbitrary integers, with sign extension.
- **CedarBuffer**: the growable record buffer as a class over an `array` of bytes (`resize`, `grow`, `jump`, `safeOffset`).
- **CedarState**: the trie's state as a value (`State`: node columns, block records, list heads, `reject` table, counters).
- **AllocSpec, Siblings, Placement, Nodes, Relocation, Keys, Queries**: each Java method as a function on `State`, one per step, returning `Result<State>`.
- **Rings, BlockLists, FreeRings, AllocProofs, AddBlockProofs**: the allocator invariant `AllocWF` and the lemmas that each allocator step keeps it. The invariant has four parts:
  - the block lists are rings that partition the blocks;
  - each block's free slots form a ring through `check`/`base`;
  - the counts agree;
  - blocks past `size` are blank.
- **BaseCedar.Trie**: the class whose fields the Java object updates in place. Each of its methods updates its fields step by step as the Java method does, and is proved to leave `Snapshot()` equal to the corresponding function's result. Where a Findings row applies, the method follows the corrected definition, not the code as written; "## Left out" names those methods.
- **TrieOps** and **Iterators**: the loops of `resolve`, `follow`, `update`, `find`, `erase`, `begin`, `next`, `suffixBytes` and the iterators' `advance`, as methods on a `Trie`. Each is proved equal to its function, which uses the corrected definitions of the Findings rows.
- **EraseProofs**: what the standard trie's `erase` does to the stored keys.
- **EraseKeeps**: in a trie whose chains hold each node's children, the standard trie's `erase` keeps every other key's value.
- **UpdateKeeps**: the standard trie's `update` when no edge it adds needs a node moved. It keeps the allocator invariant, `find` reads the new value back, it returns the old value, and every other key keeps its value.
- **Serialization**: the image layout as bytes, the encoder and decoder, and the method that writes an image into a buffer.

An `Encoding` (`Standard` or `Reduced`) selects the branches in which `ReducedCedar` differs from `Cedar`.

## Model

| member | source | states |
|---|---|---|
| Bits.Signed | src/main/java/com/nc/cedar/BaseCedar.java:356 | a label byte read as a Java `byte`: in -128..127, congruent to the byte mod 256, unchanged below 128 |
| Bits.XorLabel | src/main/java/com/nc/cedar/Bits.java:169-171 | `base ^ u32(label)` keeps the sign and the block of `base` and xors only the low byte |
| Bits.XorLabelCancel | src/main/java/com/nc/cedar/Cedar.java:880 | xoring the same label twice gives the base back (`base ^= children[0]` then `^ children[i]`) |
| Bits.XorLabelInjective | src/main/java/com/nc/cedar/Cedar.java:492 | distinct labels under one base reach distinct slots |
| Bits.LabelBetweenXor | src/main/java/com/nc/cedar/BaseCedar.java:266-286 | the label recovered as `base ^ e` from a slot `e` is the label that reached it |
| Bits.XorLabelIsJavaXor | src/main/java/com/nc/cedar/Bits.java:169-171 | on a 32-bit `int`, the model's label xor equals Java's bitwise `base ^ u32(label)` on the two's-complement bits |
| Bits.XorSignExtendedIsJavaXor | src/main/java/com/nc/cedar/ReducedCedar.java:571 | on a 32-bit `int`, the model's `e ^ i32(label)` equals Java's bitwise xor with the sign-extended byte |
| CedarBuffer.RecordBuffer.constructor | src/main/java/com/nc/cedar/CedarBuffer.java:31-35 | a new buffer holds `cap` zeroed records and its position is 0 |
| CedarBuffer.RecordBuffer.Cap | src/main/java/com/nc/cedar/CedarBuffer.java:48-50 | the capacity in records is the number of whole records that fit the byte size |
| CedarBuffer.RecordBuffer.SafeOffset | src/main/java/com/nc/cedar/CedarBuffer.java:115-121 | the offset is `ix * unit`; it fails exactly when checking is on and the index is negative, at or past the position, or the record ends past the buffer |
| CedarBuffer.RecordBuffer.SafeOffsetInside | src/main/java/com/nc/cedar/CedarBuffer.java:115-121 | with checking on, an offset handed out addresses a whole record `ix` below the position and inside the buffer |
| CedarBuffer.RecordBuffer.Jump | src/main/java/com/nc/cedar/CedarBuffer.java:84-86 | the position moves to the capacity; the bytes are kept |
| CedarBuffer.RecordBuffer.Grow | src/main/java/com/nc/cedar/CedarBuffer.java:63-77 | a fresh buffer holding the old bytes followed by `more * unit` zero bytes; the position is kept |
| CedarBuffer.RecordBuffer.Resize | src/main/java/com/nc/cedar/CedarBuffer.java:88-112 | a fresh buffer of `newSize` records equal to `Resized` of the old bytes; the position becomes `newSize` |
| CedarBuffer.CopyPrefix | src/main/java/com/nc/cedar/CedarBuffer.java:93-97 | as much of the old bytes as fits goes to the start of the new zeroed buffer |
| CedarBuffer.FillRecords | src/main/java/com/nc/cedar/CedarBuffer.java:102-109 | the loop sets every record from the old position up to the new size to the blank record, giving `Resized` |
| CedarBuffer.ResizeKeepsPrefix | src/main/java/com/nc/cedar/CedarBuffer.java:88-112 | resize keeps every byte of the records below the old position |
| CedarBuffer.ResizeInitialisesRecords | src/main/java/com/nc/cedar/CedarBuffer.java:102-109 | every record from the old position up to the new size holds the blank record |
| CedarBuffer.ResizeBelowPos | src/main/java/com/nc/cedar/CedarBuffer.java:88-112 | shrinking below the position truncates the old bytes (zero-padded) and writes no blank record |
| CedarState.PerType.With | src/main/java/com/nc/cedar/BaseCedar.java:421-435 | setting one list head changes that head only |
| BlockLists.PushBlockKeepsList | src/main/java/com/nc/cedar/BaseCedar.java:290-307 | push_block puts a block not on the list at the head of its ring and keeps the list well formed |
| BlockLists.PopBlockKeepsList | src/main/java/com/nc/cedar/BaseCedar.java:247-264 | pop_block removes a listed block from its ring and keeps the list well formed |
| BlockLists.LastIffSingle | src/main/java/com/nc/cedar/BaseCedar.java:442 | `idx == next[idx]` holds exactly when the block is alone on its list |
| BlockLists.EmptyIffNoHead | src/main/java/com/nc/cedar/BaseCedar.java:230-237 | a head of 0 means an empty Open or Closed list |
| BlockLists.TransferKeepsLists | src/main/java/com/nc/cedar/BaseCedar.java:439-445 | transfer_block moves one block from one list to another, and the lists still partition the blocks |
| FreeRings.RemoveFreeKeeps | src/main/java/com/nc/cedar/Cedar.java:699-717 | taking a free slot unlinks it from its block's free ring and lowers the block's free count by one |
| FreeRings.InsertFreeKeeps | src/main/java/com/nc/cedar/BaseCedar.java:310-330 | giving a slot back links it into its block's free ring after the head and raises the count by one |
| AllocProofs.TakeSlotKeeps | src/main/java/com/nc/cedar/Cedar.java:696-722 | pop_e_node's bookkeeping keeps the allocator invariant and removes the slot from the free rings |
| AllocProofs.PushENodeKeeps | src/main/java/com/nc/cedar/BaseCedar.java:309-350 | push_e_node keeps the allocator invariant and adds the slot to its block's free ring |
| AllocProofs.PushENodeRaisesReject | src/main/java/com/nc/cedar/BaseCedar.java:344-349 | push_e_node raises the block's free count by one, and its reject never falls below the global reject for that count; it clears the slot's child and sibling and leaves other blocks' rejects alone |
| AllocProofs.SettleKeeps | src/main/java/com/nc/cedar/BaseCedar.java:341-349 | resetting the trial count and raising the reject keep the invariant |
| AllocProofs.CountBound | src/main/java/com/nc/cedar/BaseCedar.java:311 | a block's free count stays within 0..256 |
| AddBlockProofs.NewRingLinked | src/main/java/com/nc/cedar/BaseCedar.java:168-174 | the new block's 256 slots form one free ring |
| AddBlockProofs.AddBlockKeeps | src/main/java/com/nc/cedar/BaseCedar.java:157-184 | add_block always succeeds on a valid state: it appends a block at `size`, doubles the capacity when full, makes the block the Open head and keeps the invariant |
| AddBlockProofs.FindPlaceKeeps | src/main/java/com/nc/cedar/Cedar.java:511-522 | find_place returns a free slot and keeps the invariant; it changes nothing when a Closed or Open block exists |
| BaseCedar.InitialValid | src/main/java/com/nc/cedar/Cedar.java:310-317 | the initial trie (one block, root in slot 0) satisfies the allocator invariant |
| BaseCedar.Trie.constructor | src/main/java/com/nc/cedar/ReducedCedar.java:163-170 | a new trie is the initial state and is valid |
| BaseCedar.Trie.Head | src/main/java/com/nc/cedar/BaseCedar.java:230-237 | get_head reads the head of the named list |
| BaseCedar.Trie.SetHead | src/main/java/com/nc/cedar/BaseCedar.java:421-435 | set_head changes exactly that head |
| BaseCedar.Trie.PushBlock | src/main/java/com/nc/cedar/BaseCedar.java:290-307 | the new state is the push_block step |
| BaseCedar.Trie.PopBlock | src/main/java/com/nc/cedar/BaseCedar.java:247-264 | the new state is the pop_block step |
| BaseCedar.Trie.TransferBlock | src/main/java/com/nc/cedar/BaseCedar.java:439-445 | the new state is the transfer_block step |
| BaseCedar.Trie.Resize | src/main/java/com/nc/cedar/BaseCedar.java:158-163 | the columns double and the new slots are blank |
| BaseCedar.Trie.LinkSlots | src/main/java/com/nc/cedar/BaseCedar.java:168-174 | the loop links the 256 slots of the new block into a ring |
| BaseCedar.Trie.AddBlock | src/main/java/com/nc/cedar/BaseCedar.java:157-184 | the new state and index are add_block's |
| BaseCedar.Trie.InsertFree | src/main/java/com/nc/cedar/BaseCedar.java:310-330 | the new state is the free-ring insertion of push_e_node |
| BaseCedar.Trie.PushRelink | src/main/java/com/nc/cedar/BaseCedar.java:317-338 | the new state is push_e_node's list transfer |
| BaseCedar.Trie.Settle | src/main/java/com/nc/cedar/BaseCedar.java:341-349 | the new state is push_e_node's trial reset and reject update |
| BaseCedar.Trie.PushENode | src/main/java/com/nc/cedar/BaseCedar.java:309-350 | the new state is push_e_node's |
| BaseCedar.Trie.FindPlace | src/main/java/com/nc/cedar/Cedar.java:511-522 | the new state and slot are find_place's |
| BaseCedar.Trie.RemoveFree | src/main/java/com/nc/cedar/Cedar.java:699-717 | the new state is pop_e_node's free-ring removal |
| BaseCedar.Trie.PopRelink | src/main/java/com/nc/cedar/Cedar.java:704-721 | the new state is pop_e_node's list transfer |
| BaseCedar.Trie.TakeSlot | src/main/java/com/nc/cedar/Cedar.java:696-722 | the new state is pop_e_node's bookkeeping |
| BaseCedar.Trie.PopENode | src/main/java/com/nc/cedar/Cedar.java:688-734 | the new state and slot are pop_e_node's (corrected for the reduced trie) |
| BaseCedar.Trie.PopSibling | src/main/java/com/nc/cedar/Cedar.java:736-756 | the new state is pop_sibling's |
| BaseCedar.Trie.PushSibling | src/main/java/com/nc/cedar/Cedar.java:828-861 | the new state is push_sibling's (corrected comparison) |
| BaseCedar.Trie.Consult | src/main/java/com/nc/cedar/BaseCedar.java:206-213 | the answer is consult's |
| BaseCedar.Trie.ReadLabels | src/main/java/com/nc/cedar/Cedar.java:1001-1036 | the labels read are a prefix of the sibling walk: non-zero, bounded by `label` when asked, starting at the first child |
| BaseCedar.Trie.SetChild | src/main/java/com/nc/cedar/Cedar.java:1001-1036 | the child list is set_child's |
| BaseCedar.Trie.ChildrenFit | src/main/java/com/nc/cedar/Cedar.java:542-551 | the answer is the fit check of find_places' inner loop |
| BaseCedar.Trie.ScanRing | src/main/java/com/nc/cedar/Cedar.java:538-556 | the answer is the scan of one block's free ring |
| BaseCedar.Trie.Reject | src/main/java/com/nc/cedar/Cedar.java:561-574 | the new state is the failed block's reject, trial and Closed transfer |
| BaseCedar.Trie.Visit | src/main/java/com/nc/cedar/Cedar.java:537-574 | the new state and result are one Open block's visit |
| BaseCedar.Trie.ScanOpen | src/main/java/com/nc/cedar/Cedar.java:525-584 | the new state and result are the round over the Open list |
| BaseCedar.Trie.FindPlaces | src/main/java/com/nc/cedar/Cedar.java:524-587 | the new state and slot are find_places' |
| Siblings.WalkUnique | src/main/java/com/nc/cedar/Cedar.java:922-926 | a sibling walk that ends visits distinct non-zero labels |
| Siblings.ChainLinked | src/main/java/com/nc/cedar/BaseCedar.java:206-213 | a node's child chain starts at its child byte, follows the sibling links and has no repeats |
| Siblings.LinkedChain | src/main/java/com/nc/cedar/BaseCedar.java:206-213 | any linked label list within the bound is the chain read from its first label |
| Siblings.PopSiblingRemoves | src/main/java/com/nc/cedar/BaseCedar.java:266-286 | pop_sibling removes exactly the given label from the chain and touches nothing outside it |
| Siblings.PushSiblingInserts | src/main/java/com/nc/cedar/BaseCedar.java:352-382 | push_sibling inserts the label into the chain at its place (ordered: before the first larger label; unordered: right after the terminal label, else first) and touches nothing outside the chain and the new slot |
| Siblings.PushSiblingFirst | src/main/java/com/nc/cedar/BaseCedar.java:352-382 | the first child of a childless node becomes a one-label chain |
| Siblings.PushSiblingKeepsOrder | src/main/java/com/nc/cedar/BaseCedar.java:355-370 | in an ordered trie, inserting keeps the chain ascending |
| Siblings.PushSiblingAsWrittenDropsChildren | src/main/java/com/nc/cedar/BaseCedar.java:356 | as written, a label of 128 or more under a terminal first child replaces the whole chain (see Findings) |
| Siblings.ConsultCompares | src/main/java/com/nc/cedar/BaseCedar.java:206-213 | consult says whether the owner's chain is longer than the new node's parent's |
| Siblings.ArrangeLists | src/main/java/com/nc/cedar/Cedar.java:1001-1036 | set_child's list holds the chain's labels plus the new one, without repeats, with the terminal label first when present |
| Siblings.ArrangeAscending | src/main/java/com/nc/cedar/Cedar.java:1010-1033 | in an ordered trie, set_child's list is ascending |
| Placement.ChildrenFitMeans | src/main/java/com/nc/cedar/Cedar.java:542-551 | the fit check holds exactly when every remaining child's slot is free (`check < 0`) |
| Placement.ScanRingFits | src/main/java/com/nc/cedar/Cedar.java:538-556 | a slot found on a free ring places every child on a free slot |
| Placement.RejectKeepsNodes | src/main/java/com/nc/cedar/Cedar.java:561-574 | a rejected block's bookkeeping leaves the node columns alone |
| Placement.ScanOpenFits | src/main/java/com/nc/cedar/Cedar.java:525-584 | the Open-list round leaves the nodes alone and, when it finds a base, every child fits |
| Placement.AddBlockPlaces | src/main/java/com/nc/cedar/Cedar.java:586 | a fresh block fits any children at its first slot |
| Placement.FindPlacesFits | src/main/java/com/nc/cedar/Cedar.java:524-587 | find_places returns a base under which every child's slot is free |
| Nodes.PopENodeLinks | src/main/java/com/nc/cedar/Cedar.java:688-734 | pop_e_node returns a slot now owned by `from`, at `base ^ label` or at the base it then gives `from`; a new node gets the fresh base of its encoding |
| Nodes.PopENodeKeeps | src/main/java/com/nc/cedar/Cedar.java:688-734 | pop_e_node keeps the allocator invariant and returns a slot in use |
| Nodes.PopENodeReducedSignExtends | src/main/java/com/nc/cedar/ReducedCedar.java:571 | as written, a label of 128 or more gives `from` a non-negative base that does not lead back to the new slot (see Findings) |
| Nodes.PopENodeReducedLinks | src/main/java/com/nc/cedar/ReducedCedar.java:570-572 | corrected, `from` gets a negative base that leads to the new slot |
| Relocation.RepointSets | src/main/java/com/nc/cedar/Cedar.java:922-926 | the do-while sets `check = to` on exactly the chain's slots and keeps every other `check` |
| Relocation.ContestChooses | src/main/java/com/nc/cedar/Cedar.java:864-890 | the node that moves is the new node's parent exactly when its chain is shorter; its children are set_child's list |
| Relocation.PlanPlaces | src/main/java/com/nc/cedar/Cedar.java:874-896 | the new base places every moving child on a free slot |
| Relocation.MoveChildPlaces | src/main/java/com/nc/cedar/Cedar.java:900 | each moved child lands at `base ^ label`, owned by the moving node |
| Relocation.TransplantCarries | src/main/java/com/nc/cedar/Cedar.java:901-927 | a moved child is linked to the next label, takes its old base and, with children, its child byte and their `check`s |
| Relocation.GiveBackFrees | src/main/java/com/nc/cedar/Cedar.java:929-947 | the old slot is freed, or handed to `from_n` when disputed; `from_n` follows its node when it moves |
| Keys.AttachLinks | src/main/java/com/nc/cedar/Cedar.java:595-601 | a new child is owned by `from` and reached from it by the label |
| Keys.FollowOwns | src/main/java/com/nc/cedar/Cedar.java:589-612 | on a well-formed allocator, when the slot is free or already `from`'s, follow returns a node owned by `from` that `from`'s base leads to by the label, never `from` itself; an edge already there is taken without any change |
| Keys.LiftKeepsValue | src/main/java/com/nc/cedar/ReducedCedar.java:767-771 | a leaf's value moves to its new terminal child before the leaf gains children |
| Keys.UpdateReadsBack | src/main/java/com/nc/cedar/Cedar.java:1095-1108 | in both tries, after update succeeds, `ValueAt` at the node update's loop ended on reads the new value; update returned what `ValueAt` read there before. `ValueAt` is the read find makes once its descent stops at a node. The empty key is never accepted |
| Keys.DescendReaches | src/main/java/com/nc/cedar/Cedar.java:491-500 | find's loop stops at the node the key's prefix reaches, and stops early exactly when the next label is missing |
| Keys.FindMeans | src/main/java/com/nc/cedar/Cedar.java:482-509 | find is ABSENT exactly when the key reaches no node; otherwise it is a value exactly when the terminal slot is owned, and the value is the terminal's base |
| Keys.FindReducedAsWrittenMissesLeaf | src/main/java/com/nc/cedar/ReducedCedar.java:362-367 | as written, a leaf reached by a sub-range search starting past 0 reads as ABSENT (see Findings) |
| Keys.FindReducedFromStart | src/main/java/com/nc/cedar/ReducedCedar.java:334-368 | for searches from position 0 the written and corrected searches agree |
| Keys.FindReducedLeaf | src/main/java/com/nc/cedar/ReducedCedar.java:334-368 | corrected, a sub-range search from any start finds a leaf's value exactly when the sub-range's bytes lead to that leaf, and the value is the leaf's base |
| Keys.FindKeyAgrees | src/main/java/com/nc/cedar/ReducedCedar.java:291-319 | the whole-key `find` equals the general search over the key |
| Keys.EraseStepFrees | src/main/java/com/nc/cedar/Cedar.java:453-468 | one step of erase's loop frees the slot and stops exactly when the node had siblings |
| Keys.EraseOnlyValues | src/main/java/com/nc/cedar/ReducedCedar.java:247-256 | erase changes nothing unless the key holds a value, and then it erases from the found node |
| Keys.EraseStandardAsWrittenFreesForeignSlot | src/main/java/com/nc/cedar/Cedar.java:442-448 | as written, erasing a key that has no value frees a slot the node does not own (see Findings) |
| TrieOps.Repoint | src/main/java/com/nc/cedar/Cedar.java:922-926 | the loop's `check` column is the function's |
| TrieOps.Adopt | src/main/java/com/nc/cedar/Cedar.java:917-927 | the new state is the adoption of a moved child's children |
| TrieOps.Transplant | src/main/java/com/nc/cedar/Cedar.java:901-927 | the new state is one child's move |
| TrieOps.MoveChild | src/main/java/com/nc/cedar/Cedar.java:899-948 | the new state and `from_n` are one loop iteration's |
| TrieOps.GiveBack | src/main/java/com/nc/cedar/Cedar.java:929-947 | the new state and `from_n` are the clean-up's |
| TrieOps.MoveChildren | src/main/java/com/nc/cedar/Cedar.java:899-948 | the new state is the whole relocation loop's |
| TrieOps.Contest | src/main/java/com/nc/cedar/Cedar.java:864-890 | the choice is the function's |
| TrieOps.Plan | src/main/java/com/nc/cedar/Cedar.java:874-896 | the new state and move plan are the function's |
| TrieOps.Resolve | src/main/java/com/nc/cedar/ReducedCedar.java:586-678 | the new state and freed slot are resolve's |
| TrieOps.Attach | src/main/java/com/nc/cedar/Cedar.java:595-601 | the new state and child are the function's |
| TrieOps.Follow | src/main/java/com/nc/cedar/ReducedCedar.java:462-485 | the new state and child are follow's |
| TrieOps.Lift | src/main/java/com/nc/cedar/ReducedCedar.java:767-771 | the new state is the reduced trie's value lift |
| TrieOps.Insert | src/main/java/com/nc/cedar/Cedar.java:1100-1103 | the new state and node are the key loop's |
| TrieOps.Terminal | src/main/java/com/nc/cedar/ReducedCedar.java:778-783 | the new state and slot are the terminal step's |
| TrieOps.Update | src/main/java/com/nc/cedar/ReducedCedar.java:760-786 | the new state and previous value are update's; the empty key is refused and changes nothing |
| TrieOps.Find | src/main/java/com/nc/cedar/ReducedCedar.java:334-379 | the result is the (corrected) search's |
| TrieOps.FindKey | src/main/java/com/nc/cedar/ReducedCedar.java:291-319 | the result is the whole-key lookup |
| TrieOps.EraseStep | src/main/java/com/nc/cedar/ReducedCedar.java:258-285 | one iteration either ends the erase or hands it on to the parent |
| TrieOps.EraseUp | src/main/java/com/nc/cedar/Cedar.java:450-472 | the new state is erase(from)'s |
| TrieOps.EraseNode | src/main/java/com/nc/cedar/ReducedCedar.java:258-285 | the new state is erase(from)'s |
| TrieOps.Erase | src/main/java/com/nc/cedar/ReducedCedar.java:247-256 | the new state and lookup are erase's (corrected for the standard trie) |
| Queries.GetMeans | src/main/java/com/nc/cedar/Cedar.java:614-637 | get is a match exactly when the key holds a value, and the match carries that value and the key's length |
| Queries.SuffixRebuilds | src/main/java/com/nc/cedar/Cedar.java:1071-1081 | suffixBytes of a node `len` labels below `v` gives back exactly those labels |
| Queries.LeftmostReaches | src/main/java/com/nc/cedar/Cedar.java:356-387 | begin's descent reaches a value along the labels it counts |
| Queries.BeginRebuilds | src/main/java/com/nc/cedar/Cedar.java:356-387 | the node begin stops at, with the length it reports, spells a path from the start node that suffixBytes rebuilds |
| Queries.NextAfter | src/main/java/com/nc/cedar/Cedar.java:643-663 | in an ordered trie whose chains ascend, the key next reports comes after the current key in byte order, is reached from the root by its labels, and is what suffixBytes rebuilds |
| Queries.StoredMeans | src/main/java/com/nc/cedar/Cedar.java:478-509 | the whole-key lookup finds a value exactly when the key is stored, and finds that value |
| Queries.ExtendFinds | src/main/java/com/nc/cedar/Cedar.java:75-92 | a prefix match the common-prefix iterator reports is a stored prefix of the key, and the cursor stays on the key's path |
| Queries.ExtendMisses | src/main/java/com/nc/cedar/Cedar.java:75-92 | no stored prefix is skipped between two reported matches, and none lies past the end |
| Queries.ExtendReports | src/main/java/com/nc/cedar/Cedar.java:75-92 | the two together, packaged for the iterator |
| Queries.ScanFinds | src/main/java/com/nc/cedar/Cedar.java:174-200 | a scan match spans a stored key of the text at the reported offsets, with its value |
| Queries.ScanMisses | src/main/java/com/nc/cedar/Cedar.java:174-200 | no stored key starting at or after the scan position is skipped before the reported match |
| Queries.ScanReports | src/main/java/com/nc/cedar/Cedar.java:174-200 | the two together, packaged for the iterator |
| Queries.PredictAsWrittenReportsAbsentPrefix | src/main/java/com/nc/cedar/Cedar.java:109-150 | as written, a prefix that is absent yields a spurious match on the second step (see Findings) |
| Queries.PredictAbsentPrefixEnds | src/main/java/com/nc/cedar/Cedar.java:109-127 | corrected, an absent prefix ends the iteration at once and for good |
| Queries.PredictFirst | src/main/java/com/nc/cedar/Cedar.java:114-124 | for a present prefix, the first match is begin's, rooted at the prefix's node |
| Queries.PredictFirstRebuilds | src/main/java/com/nc/cedar/Cedar.java:114-124 | the first predicted match's node is reached by the prefix followed by its suffix |
| EraseProofs.EraseUpFrees | src/main/java/com/nc/cedar/Cedar.java:450-472 | erase's climb keeps the allocator invariant, puts every slot it gives back on a free ring, and changes no slot off the rings |
| EraseProofs.EraseStopsAtRoot | src/main/java/com/nc/cedar/Cedar.java:453-471 | at the root, whose chain starts with the fake label 0 at slot 0, a round of erase ends the climb while the root has a real child |
| EraseProofs.EraseForgets | src/main/java/com/nc/cedar/Cedar.java:442-472 | after erase(key) the key holds no value, and every key that holds a value held the same one before |
| EraseKeeps.EraseKeepsKey | src/main/java/com/nc/cedar/Cedar.java:442-472 | assumes a trie whose chains hold each node's children. Then any other key without byte 0 that holds a value holds the same one after erase(key): the climb stops at the deepest node the two keys share, and frees nothing on the other key's path |
| EraseKeeps.EraseKeepsOthers | src/main/java/com/nc/cedar/Cedar.java:442-472 | the same for every other stored key at once. With EraseProofs.EraseForgets: erase removes exactly its key |
| UpdateKeeps.PopENodeFrame | src/main/java/com/nc/cedar/Cedar.java:688-733 | pop_e_node keeps the allocator invariant. The slot it hands out was not held and now is. Every held slot keeps its check, and its base too unless it is `from` getting its first base |
| UpdateKeeps.FollowStep | src/main/java/com/nc/cedar/Cedar.java:589-612 | follow without resolve keeps the allocator invariant. It returns a held slot owned by `from` that `from`'s base leads to by the label. An edge already there is taken with no change; otherwise the slot is new, with pop_e_node's fresh base, and every held slot keeps its check and base (but `from`'s first base) |
| UpdateKeeps.InsertFresh | src/main/java/com/nc/cedar/Cedar.java:1100-1103 | once the key has left the trie, every node update's loop makes is new and has no base, the labels lead to it, and the slots held before keep their check and base |
| UpdateKeeps.WriteBack | src/main/java/com/nc/cedar/Cedar.java:1105-1107 | the write into the terminal keeps the allocator invariant and the root, makes the key store the new value, and keeps every other key without byte 0 |
| UpdateKeeps.LookupStored | src/main/java/com/nc/cedar/Cedar.java:482-509 | find(key) succeeds and reads the value the standard trie stores for the key |
| UpdateKeeps.UpdateFinds | src/main/java/com/nc/cedar/Cedar.java:1095-1108 | standard trie, a key without byte 0, and no edge update adds needing a node moved. update keeps the allocator invariant, and find(key) then reads the new value. update returns the value find read before (0 for a new key). Every other stored key keeps its value |
| Iterators.Leftmost | src/main/java/com/nc/cedar/Cedar.java:361-380 | the loop computes begin's descent |
| Iterators.LeafValue | src/main/java/com/nc/cedar/ReducedCedar.java:176-209 | the step computes the value found at a leaf |
| Iterators.Begin | src/main/java/com/nc/cedar/ReducedCedar.java:176-209 | the method computes begin |
| Iterators.Next | src/main/java/com/nc/cedar/Cedar.java:643-663 | the loop computes next: up to the first node with a later sibling, then begin |
| Iterators.SuffixBytes | src/main/java/com/nc/cedar/Cedar.java:1071-1081 | the bytes are the suffix; the scratch array is reused when long enough, else a fresh one is returned |
| Iterators.FillSuffix | src/main/java/com/nc/cedar/ReducedCedar.java:744-754 | the loop fills the array from the back with the suffix |
| Iterators.Extend | src/main/java/com/nc/cedar/Cedar.java:76-91 | the loop computes the common-prefix step |
| Iterators.Scan | src/main/java/com/nc/cedar/Cedar.java:175-199 | the loops compute the scan step |
| Iterators.PrefixIter.constructor | src/main/java/com/nc/cedar/Cedar.java:69-72 | the cursor starts at the root, position 0, no match |
| Iterators.PrefixIter.Advance | src/main/java/com/nc/cedar/Cedar.java:75-92 | the fields move as the function says; on the key's path the match reported is the next stored prefix and none is skipped |
| Iterators.PrefixPredictIter.constructor | src/main/java/com/nc/cedar/ReducedCedar.java:60-63 | the cursor starts empty |
| Iterators.PrefixPredictIter.Advance | src/main/java/com/nc/cedar/Cedar.java:109-128 | the fields move as the corrected predict step says |
| Iterators.PrefixPredictIter.TryAdvance | src/main/java/com/nc/cedar/Cedar.java:140-150 | the fields move as tryAdvance says: report the value, then next |
| Iterators.ScanItr.constructor | src/main/java/com/nc/cedar/Cedar.java:166-171 | the scan starts at `base` with no match |
| Iterators.ScanItr.Advance | src/main/java/com/nc/cedar/ReducedCedar.java:122-148 | the fields move as the scan step says; on the path the match is the next stored key in the text and none is skipped |
| Serialization.Mask | src/main/java/com/nc/cedar/BaseCedar.java:130-132 | mask maps NO_VALUE to NO_VALUE_U64 and keeps every other value |
| Serialization.MaskIdempotent | src/main/java/com/nc/cedar/BaseCedar.java:130-132 | masking twice is masking once |
| Serialization.UnsignedInverts | src/main/java/com/nc/cedar/BaseCedar.java:386-411 | little-endian bytes read back as the unsigned number written |
| Serialization.SignedInverts | src/main/java/com/nc/cedar/BaseCedar.java:386-411 | two's-complement bytes read back as the signed number written |
| Serialization.SerializeSize | src/main/java/com/nc/cedar/BaseCedar.java:239-241 | the header is 97 bytes and the image is exactly imageSize bytes |
| Serialization.HeaderLayout | src/main/java/com/nc/cedar/BaseCedar.java:389-405 | each header field sits at its fixed offset |
| Serialization.RoundTrip | src/main/java/com/nc/cedar/BaseCedar.java:57-114 | deserialize of serialize gives back every field and every buffer |
| Serialization.DeserializeRefuses | src/main/java/com/nc/cedar/BaseCedar.java:57-114 | deserialize fails exactly when the source is shorter than the header, a length is negative, or the buffers run past the end |
| Serialization.DeserializeSize | src/main/java/com/nc/cedar/BaseCedar.java:57-114 | an image read back fits in the bytes it was read from: its `ImageSize()` is at most their length |
| Serialization.Put | src/main/java/com/nc/cedar/BaseCedar.java:407-410 | the loop copies the bytes at the offset and leaves the rest of the buffer alone |
| Serialization.SerializeInto | src/main/java/com/nc/cedar/BaseCedar.java:386-411 | serialize succeeds exactly when the image fits, and then the buffer starts with the image bytes |

## Left out

- The initial records come from `Nodes.initial()` / `initial_r()`, `Blocks.initial()` and `Rejects.initial()`, which are not part of this model. `BaseCedar.Initial` assumes the layout the allocator expects:
  - the root in slot 0 with check -1, and slots 1..255 as one free ring in index order;
  - block 0 with 255 free slots, trial 0, reject 257 and ring head 1, on no list;
  - the reject table holding `i + 1` for each free count `i` from 0 to 256.
- The records `resize` adds are assumed blank: `num` 256, `reject` 257, `base` 0 and `check` 0 (`AllocSpec.BLANK_NUM`, `BLANK_REJECT`, `BLANK_BASE`, `BLANK_CHECK`).
- Walks that follow stored links carry a fuel bound: 256 for sibling chains and free rings, the number of blocks for the Open list, the column length for depth walks. Running out of fuel is reported as `Diverges`, where the source would loop forever. The model does not prove that a valid trie never runs out.
- The trie-level invariants are proved only in part.
  - Proved: the allocator's steps preserve its invariant, and the read-only queries are characterised on any state.
  - Proved: the standard trie's `update`, when no edge it adds needs a node moved, keeps the allocator invariant. `find` then reads the new value, `update` returns the old one, and every other key keeps its value (UpdateKeeps.UpdateFinds).
  - Proved: `erase` forgets its key (EraseProofs.EraseForgets) and, in a trie whose chains hold each node's children, keeps every other key's value (EraseKeeps.EraseKeepsOthers).
  - Proved: `next` moves forward in byte order (Queries.NextAfter).
  - Not proved: `update` when an edge needs `resolve`, and the reduced trie's `update` beyond Keys.UpdateReadsBack.
  - Not proved: that `update`, `erase` and `resolve` preserve `ChildOwned`, `ChainsAscend` and `ChainsHeld`.
  - Not proved: that `erase` and `resolve` preserve the allocator invariant over a whole call.
  - Not proved: that predict yields every key under its prefix, in order, after its first match.
- Keys.FollowOwns: covers follow's two cases without relocation (the slot is free, or already `from`'s). The case where another node holds the slot and follow calls `resolve` is not covered.
- Relocation.Resolve: no ownership lemma. `resolve` may move `from` itself, and the slot it returns is not proved to be owned by the node's new place.
- Keys.UpdateReadsBack: reads back through `ValueAt` at the node update's loop returned, not through a whole `find`. It assumes the allocator is well formed after the key's nodes are made, and that the final follow to the terminal needs no relocation. For the standard trie, UpdateKeeps.UpdateFinds states the read-back through `find` and the frame.
- UpdateKeeps.UpdateFinds: covers only the case where every edge update adds along the key and its terminal finds its slot free or already its own (`NoRelocation`). `resolve` moves other nodes' children, and its ownership is not proved (see Relocation.Resolve).
- UpdateKeeps.UpdateFinds: excludes keys with byte 0. In the standard trie, 0 is also the terminal label, so such a key's path can run through another key's terminal, and update then reads that key's value as a base.
- UpdateKeeps.UpdateFinds: assumes `Rooted` and that update returns without a fault (`OutOfBounds`, `Diverges`). `Rooted` says the root reads as free, its base lies in a handed-out block, and the slots past the handed-out blocks are blank. UpdateFinds proves it kept; that `erase` keeps it is not proved.
- UpdateKeeps.UpdateFinds: covers the standard trie only. The reduced trie moves a leaf's value (`Lift`), and that case is not proved.
- Queries.NextAfter: assumes `ChildOwned` and `ChainsAscend`. Neither is proved preserved by `update`, `erase` or `resolve`. `ChildOwned` ranges over every slot, free ones included, so keeping it needs a further invariant: free slots carry no child label (push_e_node clears the labels, Cedar.java:825). `AllocWF` does not carry that invariant. `ChainsAscend` needs each node's whole chain of children tracked through push_sibling, pop_sibling and resolve's moves, and the model states those steps one slot at a time. It does not prove that no stored key lies between the current key and the next one.
- Queries.PredictFirstRebuilds: assumes `ChildOwned`, for the same reason not proved preserved by `update`, `erase` or `resolve`.
- Queries.PredictFirst: characterises only predict's first match. That the later matches are every key under the prefix, in byte order, is not proved, because next is not proved to skip no key.
- EraseProofs.EraseForgets: covers the standard trie only, with the corrected `erase` of Findings row 4. The reduced trie's `erase` is not covered.
- EraseKeeps.EraseKeepsOthers: assumes `ChainsHeld`: a node's chain of children starts at a slot it owns, and a chain with no sibling link holds one child. `ChainsHeld` is not proved preserved by `update` or `erase`, for the whole-chain reason given at Queries.NextAfter. Keys with byte 0 are excluded, as at UpdateKeeps.UpdateFinds. Standard trie only.
- EraseKeeps.EraseKeepsKey: the same assumptions as EraseKeeps.EraseKeepsOthers, for one other key.
- The `Trie` methods follow the corrected definitions of the Findings rows, not the code as written. The code as written is modelled only by the functions `Siblings.PushSiblingAsWritten`, `Nodes.PopENodeReducedAsWritten`, `Keys.FindReducedAsWritten`, `Keys.EraseStandardAsWritten` and `Queries.PredictAdvanceAsWritten`. Per method:
- BaseCedar.Trie.PushSibling: compares labels as unsigned bytes (Findings row 1); BaseCedar.java:356,369 and Cedar.java:832,845 compare signed bytes.
- BaseCedar.Trie.PopENode: gives a reduced parent the base `-(e ^ u32(label)) - 1` (Findings row 2); ReducedCedar.java:571 sign-extends the label.
- TrieOps.Find: ends a reduced search at a leaf when `pos == span` (Findings row 3); ReducedCedar.java:363 tests `pos == end`.
- TrieOps.Erase: erases only when find returned a value (Findings row 4); Cedar.java:445 erases on any result but ABSENT.
- Iterators.PrefixPredictIter.Advance: an absent prefix ends the iteration (Findings row 5); Cedar.java:110-127 leaves `value` at 0 and reports it.
- TrieOps.Attach: uses the corrected push_sibling and pop_e_node (Findings rows 1 and 2).
- TrieOps.MoveChild: uses the corrected pop_e_node (Findings row 2), and push_sibling through TrieOps.GiveBack.
- TrieOps.GiveBack: uses the corrected push_sibling (Findings row 1).
- TrieOps.MoveChildren: uses the corrected push_sibling and pop_e_node through TrieOps.MoveChild.
- TrieOps.Resolve: uses the corrected push_sibling and pop_e_node through TrieOps.MoveChildren.
- TrieOps.Follow: uses the corrected push_sibling and pop_e_node through TrieOps.Attach and TrieOps.Resolve.
- TrieOps.Lift: uses the corrected follow (Findings rows 1 and 2).
- TrieOps.Insert: uses the corrected follow (Findings rows 1 and 2).
- TrieOps.Terminal: uses the corrected follow (Findings rows 1 and 2).
- TrieOps.Update: uses the corrected follow (Findings rows 1 and 2).
- Iterators.Extend: uses the corrected sub-range find (Findings row 3), which it calls with a start past 0.
- Iterators.Scan: uses the corrected sub-range find through Iterators.Extend (Findings row 3).
- Iterators.PrefixIter.Advance: uses the corrected sub-range find through Iterators.Extend (Findings row 3).
- Iterators.ScanItr.Advance: uses the corrected sub-range find through Iterators.Scan (Findings row 3).
- Queries.ExtendFinds: standard trie only. The reduced trie keeps a leaf's value in the leaf, which the reference `Stored` does not read, and no reduced reference is part of the model.
- Queries.ExtendMisses: standard trie only, for the same reason as Queries.ExtendFinds.
- Queries.ExtendReports: standard trie only, as it packages Queries.ExtendFinds and Queries.ExtendMisses.
- Queries.ScanFinds: standard trie only, for the same reason as Queries.ExtendFinds.
- Queries.ScanMisses: standard trie only, for the same reason as Queries.ExtendFinds.
- Queries.ScanReports: standard trie only, as it packages Queries.ScanFinds and Queries.ScanMisses.
- `Cedar.java` repeats `BaseCedar`'s allocator. One model covers both: `add_block`, `push_block`, `pop_block`, `push_e_node`, `transfer_block` and `set_head`. The two copies differ in sentinels: `Cedar` uses `1L << 32` / `1L << 33`, `BaseCedar` `1L << 31` / `1L << 32`. The model replaces the sentinels with the `Lookup` datatype (`Absent`, `NoValue`, `Found`).
- `Cedar` and `ReducedCedar` are not separate classes. One `Trie` class with an `Encoding` parameter takes the variants' branches.
- The `Iterator`/`Stream` adapters are not modelled: `hasNext`, `next`, `keys`, `values`, `predict`, `scan`, `withCommonPrefix`, `build` and the `String` overloads. The iterators' `advance` and `tryAdvance` are.
- Node accessors, `MemorySegment` reads and the 8-byte node records are modelled as integer columns. Java's `int` and `long` widths are not enforced on stored values. `capacity` and `size` are unbounded integers with no wrap-around.
- `ReducedCedar(boolean ordered)` assigns the parameter `ordered = true` (ReducedCedar.java:168), a dead store. The model keeps the `ordered` flag passed to the base constructor.
- `get` and the reduced `erase` treat a negative stored value as absent (`IsValue`). The model follows the code, not the documented "any int value".
- Cedar's `erase(String)` returns nothing while ReducedCedar's returns the value. The model returns the lookup in both.
- The size method is `byteSize()` in Cedar.java:413 and `imageSize()` in BaseCedar.java:239-241. `Serialization.SerializeSize` models the latter.
- Serialization: the native byte order is taken to be little-endian. File mapping, the `copy`/share choice and `close` are left out (I/O). Cedar's `deserialize` reads offsets into an `int` (narrowing); the model follows BaseCedar's `long`.
- Serialization.SerializeInto: the size is checked before anything is written, so the partial writes the source makes before throwing on a short buffer are not modelled. On failure the buffer's contents are left unspecified.
- The `Trie`'s column fields are not linked to `RecordBuffer`'s bytes. The two are modelled side by side.
- `Bits.java` helpers other than `u32`, `i32` and `u64`, and the allocation statistics (`allocation()`), are not modelled.

## Findings

| source | as written | input that shows it | evidently intended | confidence | as-written member | corrected member |
|---|---|---|---|---|---|---|
| src/main/java/com/nc/cedar/BaseCedar.java:356,369 (and Cedar.java:832,845) | `label > infos.child(from)` and `c < label` compare signed Java bytes | ordered trie, node whose first child is the terminal 0, push label 0x80: `-128 > 0` is false, so the new label becomes the first child and the chain is lost | compare labels as unsigned bytes, so the label goes after 0 in the chain | high (not executed) | Siblings.PushSiblingAsWrittenDropsChildren | Siblings.PushSiblingInserts |
| src/main/java/com/nc/cedar/ReducedCedar.java:571 | `-(e ^ i32(label)) - 1` sign-extends the byte | base < 0, label 0x80, new slot e = 256: `i32(label)` = -128, so the stored base is non-negative and does not lead back to e | `-(e ^ u32(label)) - 1` | high (not executed) | Nodes.PopENodeReducedSignExtends | Nodes.PopENodeReducedLinks |
| src/main/java/com/nc/cedar/ReducedCedar.java:363 | a leaf ends the search with `pos == end` | `find(key, from, 1, 2)` reaching a leaf after one label: `pos` is 1 but `end` is 2, so the value reads as ABSENT | `pos == span` (the sub-range's length) | medium (not executed) | Keys.FindReducedAsWrittenMissesLeaf | Keys.FindReducedLeaf |
| src/main/java/com/nc/cedar/Cedar.java:445-446 | erase runs whenever find is not ABSENT, also on NO_VALUE | erasing "ab" from a trie holding only "abc": find is NO_VALUE, and erase(from) frees `base(from)`, a slot `from` does not own | erase only when find returned a value | high (not executed) | Keys.EraseStandardAsWrittenFreesForeignSlot | Keys.EraseOnlyValues |
| src/main/java/com/nc/cedar/Cedar.java:110-127,140-150 (and ReducedCedar.java:66-104) | `value` starts at 0, so an absent prefix leaves it 0 and the second `advance` reports it | trie holding only "x", `predict("xy")`, `hasNext()` called twice: the second call yields `Match(0, 0, c)` | an absent prefix ends the iteration | high (not executed) | Queries.PredictAsWrittenReportsAbsentPrefix | Queries.PredictAbsentPrefixEnds |
