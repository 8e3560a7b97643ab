# Verification of vanessa_adt's containers and configuration reader

This project models four parts of vanessa_adt, a C library of abstract data types, and proves what they
are for.

* **The linked list** (`list.c`) is a class of heap nodes spliced in place (`LinkedList.dfy`), with its ring
  of recently added nodes and its move-to-front mode. Every call is proved equal to a step of a state machine
  over the sequence of stored elements (`ListModel.dfy`). The list object carries its call history, and its
  invariant says that its state is the one that history leads to, so what `ListModel.dfy` and `ListOrder.dfy`
  prove of every run holds of every list.
* **The configuration reader** (`config_file.c`) is a class with the reader's state variables and its token
  buffer, which starts with whatever was in memory (`ConfigFile.dfy`). It refines a machine of pure functions, one
  for each macro (`ConfigMachine.dfy`), which refines a lexer that has no buffer, no positions and no `last_escaped`
  (`ConfigGrammar.dfy`). The refinement holds for every input, over-long tokens and NUL bytes included, and covers
  the array, what each entry was added as, and where each trim started. The laws in `ConfigValues.dfy`,
  `ConfigLaws.dfy`, `ConfigRoundTrip.dfy`, `ConfigOutput.dfy` and `ConfigTrims.dfy` (instances in
  `ConfigTrimCases.dfy`) are proved on the lexer and carried back to the reader. The round trip is about a printer
  (`ConfigPrinter.dfy`) that shares nothing with the reader: rows of a key and any words, every token written as it
  stands, behind backslashes, in either kind of quotes or over several lines, with any white space between, with or
  without a comment. `ConfigReading.dfy` follows the lexer through what it writes.
* **The hash** (`hash.c`) is an array of those lists made on demand (`HashTable.dfy`), proved to be a flat
  multiset. Like the list, it carries its call history and the contents after each call, and beside them the values of
  each bucket in the order of its list, which decides what a lookup returns and a removal takes.
* **The dynamic array** (`dynamic_array.c`) grows and shrinks by blocks in place (`DynamicArrays.dfy`); display
  and split undo each other (`Text.dfy`), on ints (`ElementOps.dfy`) as far as the computed length is right. Displays
  of arrays and lists write into buffers sized by a separate length callback (`Displays.dfy`).

`Sorting.dfy` specifies stable sorting and the reversal of runs of equals; `Modulo.dfy` holds facts about remainders.

## Where the code and its comments differ

The model follows the code.

* An unsorted list puts a new value second, not first (`ListOrder.UnsortedAddIsSecond`).
* When a lookup moves the tail of three or more nodes to the front, `last` becomes the old head
  (`ListModel.MoveToFrontAndLast`). While `last` is not the tail, a copy, which starts at `last`, covers only the front
  part of the list up to it (`ListOrder.DuplicateMembers`): right after that lookup two elements of however many
  (`ListOrder.CopyAfterTailMoved`). A later lookup may bring `last` back to the tail (`ListModel.MoveToFrontLast` says
  exactly when). Removing the found element and then the old head leaves `last` NULL while elements are left, and a copy
  empty (`ListOrder.LastIsLost`).
* Of several matches the ring answers with the one in its lowest slot, which need be neither the newest nor the first of
  the list (`ListModel.FindAnswers`).
* A list in a hash bucket, like any plain unsorted list, holds the oldest value first and the others newest first only
  until its first element is removed; from then on the newest of the others is first (`ListOrder.HeadRemoved`, exact
  condition in `ListOrder.OldestFirst`).
* A blank at the start of a line ends the empty key, so the line is read as a value
  (`ConfigLaws.LeadingBlankStartsValue`).
* Trimming a token starts at the token and `last_escaped`, and that may lie behind the token's terminator, or behind
  the whole buffer. A value, or a key without dashes, overruns in this way exactly when before its last ordinary
  blanks comes a joined line with no blank behind it, or, once 4093 characters are kept, a joined line or an escaped
  character other than a backslash (`ConfigTrims.TrimsInside`). The scan for the end of the string then runs over
  bytes left in the buffer or never written. It leaves the buffer - an out-of-bounds read, and a write when it meets
  blanks - exactly when no longer token came before and the buffer held no NUL further on at first
  (`ConfigFile.ReadFile`). So for whatever the buffer held at first no trim leaves it, if and only if every token that
  overruns comes after a strictly longer one (`ConfigTrims.SafeForEveryBuffer`). `k v\` with two line ends may leave
  it (`ConfigTrimCases.JoinedLineTrimsBehind`), behind the line `k vvvv` it does not
  (`ConfigTrimCases.LongerLineShelters`), and `k `, 4093 characters, `\x` and a line end always does
  (`ConfigTrimCases.FullValueTrimsOutside`). Keys with dashes, inputs without a backslash
  (`ConfigTrims.NoBackslashInside`) and printed rows without a key or value that ends in a continued line
  (`ConfigRoundTrip.RoundTrip`) are always trimmed inside the token.
* Inside double quotes a backslash hides the next character, and inside either kind of quotes line ends are dropped.
  With MULTI_VALUE a NULL follows only a line that had a key. The round trip is stated so
  (`ConfigRoundTrip.RoundTrip`).
* A token that no white space, comment or line end has ended when the input ends is not returned
  (`ConfigRoundTrip.UnfinishedIsDropped`).
* Trimming a key is measured from its dashes, so a key that ends in an escaped blank loses it unless keys take
  no dashes, or a continued line behind it makes up for a single dash. A value whose last line is continued keeps one
  blank of the next line. The round trip is therefore stated with its exact condition (`ConfigRoundTrip.RoundTrip`).
* A comment whose text ends in a backslash with no backslash before it runs on into the next line, so erasing a
  comment has an exact condition too (`ConfigLaws.CommentErasure`).
* A NUL in a value ends the token, and an escaped blank just before the NUL is then trimmed although it is
  protected elsewhere (`ConfigValues.NulCounterexample`, exact condition in `ConfigValues.ValueWithNul`).
* A joined line protects one character behind it and everything before it from trimming, so a value in whose tail
  blanks and joined lines both stand keeps a blank (`ConfigValues.JoinedCounterexample`, exact condition in
  `ConfigValues.ValueIsDescribed`). In a value over 4093 characters a dropped character can take away the protection
  of a blank that was kept (exact condition in `ConfigValues.ValueByPieces`).
* The list's display keeps its last delimiter when the last element's text is empty, and then writes the terminator
  one byte behind its buffer: an out-of-bounds write (`LinkedList.List.Display`, `LinkedList.EmptyLastText`).
* `vanessa_length_int` overflows on INT_MIN. Where the negation wraps it computes 2 for the eleven characters that are
  printed, and displaying `[INT_MIN]` writes twelve bytes to a buffer of three (`DynamicArrays.IntMinDoesNotFit`).
  `DynamicArrays.IntsFitExactly` says when the display of ints stays in its buffer: `[INT_MIN, 0, 0, 0]` does
  (`DynamicArrays.IntMinCanFit`). The int round trip holds exactly without INT_MIN
  (`DynamicArrays.IntDisplayThenSplit`).
* `vanessa_match_int` is not positive unless its subtraction overflows, and so no order to sort by
  (`ElementOps.MatchIntIsNoOrder`). The sorting results hold for any comparator that is a total preorder.

## Model

| member | source | states |
|---|---|---|
| LinkedList.List.constructor | libvanessa_adt/list.c:183-233 | a fresh list is empty, with an empty ring of the requested size, and a mode of plain, ring or move-to-front |
| LinkedList.List.FindPredecessor | libvanessa_adt/list.c:486-495 | the walk back from `last` stops behind the last value the new one may follow; unsorted, behind the head |
| LinkedList.List.Link | libvanessa_adt/list.c:497-520 | the splice turns the chain into the chain with the new node at its place, and fixes both end pointers |
| LinkedList.List.Remember | libvanessa_adt/list.c:522-525 | advancing the offset and storing keeps every slot at the latest surviving add of its class |
| LinkedList.List.Add | libvanessa_adt/list.c:477-528 | an add takes the list to the state machine's next state and keeps the invariant |
| LinkedList.List.FindNode | libvanessa_adt/list.c:395-406 | the node of the element that answers: among the matches of the last n adds the one with the least add number modulo n, if there is any, else the first match of the chain |
| LinkedList.List.Promote | libvanessa_adt/list.c:408-422 | the splices put the found node before the rest of the chain, and `last` moves only when it was that node |
| LinkedList.List.GetNode | libvanessa_adt/list.c:383-424 | the node found and the state it leaves, in every mode |
| LinkedList.List.Get | libvanessa_adt/list.c:426-436 | the value of the element that answers, none when nothing matches; the list stays as it was, or in move-to-front mode has that element before the others |
| LinkedList.List.Unlink | libvanessa_adt/list.c:550-562 | the splice takes exactly that node out of the chain and fixes both end pointers |
| LinkedList.List.Forget | libvanessa_adt/list.c:564-568 | no slot refers to the removed node, every other slot is unchanged |
| LinkedList.List.Remove | libvanessa_adt/list.c:541-578 | a removal leaves the other elements in their order and takes out just the one that answers, when there is one; it keeps the invariant |
| LinkedList.List.Count | libvanessa_adt/list.c:448-461 | the number of stored elements |
| LinkedList.List.Length | libvanessa_adt/list.c:286-305 | what the length callback says of each element, and one delimiter between each two |
| LinkedList.List.Display | libvanessa_adt/list.c:328-365 | whether every text fits a buffer of the computed length and one more; if so what each text leaves, joined by the delimiter, also where lengths and texts disagree; the terminator goes inside exactly when the last length is not 0, else one behind |
| LinkedList.EmptyLastText | libvanessa_adt/list.c:339-362 | the strings "a" and "" fit three bytes, and the terminator is stored in the fourth |
| LinkedList.List.Duplicate | libvanessa_adt/list.c:590-612 | a fresh list with the values from `last` back to `first` added one by one: as many elements, and as a multiset the values, as the nodes from `first` to the node `last` points to; the original unchanged |
| LinkedList.List.ChainFacts | libvanessa_adt/list.c:383-578 | after any calls: acyclic, `prev` mirrors `next`, `last` NULL or in the chain, and the tail outside move-to-front mode |
| LinkedList.List.StaysSorted | libvanessa_adt/list.c:486-520 | after any calls the list is the stable sort of what was added and is still there |
| LinkedList.List.LostWhen | libvanessa_adt/list.c:541-578 | after any calls in any mode, what was added and is no longer there was taken out by a removal whose key it matches |
| LinkedList.List.SlotNode | libvanessa_adt/list.c:395-400 | a ring slot holds the node of the latest add of its class, or NULL when that was removed |
| ListModel.LastIsTail | libvanessa_adt/list.c:511-513 | in every run outside move-to-front mode `last` is the tail |
| ListModel.SlotOfIsMod | libvanessa_adt/list.c:523 | the offset after n adds is n modulo the ring size |
| ListModel.LatestIsGreatest | libvanessa_adt/list.c:522-525 | the add a slot stands for is the greatest add number of its residue class |
| ListModel.RingIsLastAdds | libvanessa_adt/list.c:522-525 | an element is in the ring exactly when it is among the last n added, and then in the slot of its add number |
| ListModel.FindAnswers | libvanessa_adt/list.c:395-406 | of the elements that match and are among the last n added, the one with the least add number modulo n; if there is none, the first match; none found exactly when nothing matches |
| ListModel.OneAnswers | libvanessa_adt/list.c:395-406 | at most one element is described so |
| ListModel.GetAnswers | libvanessa_adt/list.c:402-424 | the sequence, the add count and `last` after a lookup, in every mode |
| ListModel.RemoveAnswers | libvanessa_adt/list.c:541-578 | the sequence, the add count and `last` after a removal, in every mode |
| ListModel.FindAgreesWithScan | libvanessa_adt/list.c:395-406 | the ring never changes whether a match is found, nor which when at most one element matches |
| ListModel.MoveToFrontReorders | libvanessa_adt/list.c:402-422 | a lookup puts the first match before the others and keeps their order |
| ListModel.MoveToFrontLast | libvanessa_adt/list.c:408-422 | from every state, the exact condition under which `last` is the tail after a lookup |
| ListModel.MoveToFrontAndLast | libvanessa_adt/list.c:408-422 | when it was, it stays so if and only if the moved node was not the tail of three or more; else it is the old head |
| ListModel.MoveToFrontRemoval | libvanessa_adt/list.c:550-578 | removal leaves the sequence that removing the first match without moving leaves |
| ListOrder.AddPlaces | libvanessa_adt/list.c:486-520 | where an add puts the element and `last`, in every mode: second when unsorted, else behind the first not greater walking back from `last` |
| ListOrder.UnsortedAddIsSecond | libvanessa_adt/list.c:486-520 | without a comparator the new value goes behind the first |
| ListOrder.RunOrdered | libvanessa_adt/list.c:486-520 | in every run values are in order and equals are in the order they were added |
| ListOrder.RunIsStableSort | libvanessa_adt/list.c:486-520 | in every run the list equals the stable sort of the added values still present |
| ListOrder.StepItems | libvanessa_adt/list.c:477-578 | in every mode an add brings in exactly one element, a lookup keeps all, a removal takes out exactly one that matches when there is one, else none |
| ListOrder.LostByRemoval | libvanessa_adt/list.c:541-578 | over every run in every mode, an added element not stored any more was lost at a removal that it matches |
| ListOrder.AddAllSorts | libvanessa_adt/list.c:490-520 | adding values one by one is stable insertion sort |
| ListOrder.RunNewestFirst | libvanessa_adt/list.c:486-520 | in every run of an unsorted list outside move-to-front mode the elements behind the first stand newest first |
| ListOrder.FirstStays | libvanessa_adt/list.c:486-578 | in such a run an element that is first stays first until it is removed |
| ListOrder.OldestFirst | libvanessa_adt/list.c:486-520 | the first is the oldest of all if and only if it is older than the last |
| ListOrder.HeadRemoved | libvanessa_adt/list.c:550-562 | removing the first of three or more puts a newer element first |
| ListOrder.DuplicateRotates | libvanessa_adt/list.c:590-612 | the copy of an unsorted list is its front part up to `last`, rotated right by one |
| ListOrder.CopyOfRunRotates | libvanessa_adt/list.c:590-612 | after every run outside move-to-front mode that is the whole list rotated right by one |
| ListOrder.DuplicateSorts | libvanessa_adt/list.c:590-612 | with a comparator, in every mode and whatever the order, the copy is the stable sort of the part up to `last` read backwards |
| ListOrder.DuplicateReversesRuns | libvanessa_adt/list.c:590-612 | the copy of a sorted list is the part up to `last`, sorted, each run of equals reversed |
| ListOrder.CopyOfRunReversesRuns | libvanessa_adt/list.c:590-612 | after every run a copy reverses the runs of equals and a copy of the copy restores the list |
| ListOrder.DuplicateMembers | libvanessa_adt/list.c:607-609 | in every mode a copy holds exactly the values up to `last` |
| ListOrder.CopyAfterTailMoved | libvanessa_adt/list.c:408-609 | unsorted, after a lookup that moved the tail of three or more from where it was `last`, a copy is the old head's value and the value found |
| ListOrder.LastIsLost | libvanessa_adt/list.c:408-609 | removing those two leaves `last` NULL with elements left, and a copy empty |
| Sorting.StableSortIsStable | libvanessa_adt/list.c:490-494 | the sort used as specification sorts, permutes, and keeps equals in input order |
| Sorting.SortReverseIsReverseRuns | libvanessa_adt/list.c:607-609 | sorting the reverse of a sorted sequence reverses each run of equals |
| Sorting.ReverseRunsTwice | libvanessa_adt/list.c:607-609 | reversing the runs of a sorted sequence twice restores it |
| ConfigFile.Reader.RemoveTrailingWhitespace | libvanessa_adt/config_file.c:101-118 | from any place, on any buffer content: says whether the string there ends in the buffer, and if so overwrites exactly the blanks that end it |
| ConfigFile.Reader.AddToken | libvanessa_adt/config_file.c:120-127 | trims from the token and `last_escaped`, wherever that is, and appends the C string at the token, which is the trimmed token in any case; records the trim |
| ConfigFile.Reader.EndKey | libvanessa_adt/config_file.c:140-158 | the terminator is stored in bounds; the key goes out, as a key, behind no dashes with BLANK, one with X or when its second character is the terminator or a NUL, and else two, trimmed from where the machine says |
| ConfigFile.Reader.EndValue | libvanessa_adt/config_file.c:166-174 | the terminator is stored in bounds; the value goes out as a value, trimmed from where the machine says |
| ConfigFile.Reader.Quote | libvanessa_adt/config_file.c:297-328 | opening, closing and literal quotes of both kinds |
| ConfigFile.Reader.Dispatch | libvanessa_adt/config_file.c:262-333 | the switch, macro by macro, takes the reader to the machine's next state and says which characters are skipped |
| ConfigFile.Reader.Turn | libvanessa_adt/config_file.c:260-342 | one byte takes the reader to the machine's next state; every store of a token character is in bounds, and no trim leaves the buffer that starts inside its token |
| ConfigFile.Reader.Feed | libvanessa_adt/config_file.c:259-343 | the state stays where the bytes read so far lead |
| ConfigFile.Reader.BetweenBytes | libvanessa_adt/config_file.c:129-193 | between any two bytes of any input the invariant holds and the array is the lexer's tokens so far; no trim has left the buffer if and only if every token that overruns came after a strictly longer one or before a NUL the buffer held at first |
| ConfigFile.ReadFile | libvanessa_adt/config_file.c:199-347 | however the input is divided into reads, the array is the lexer's tokens of the whole input, and the same holds of its trims |
| ConfigMachine.RunInvariant | libvanessa_adt/config_file.c:129-193 | between any two bytes: key and value not both open, comments and quotes as they must be, `token_pos` and `last_escaped` bounded |
| ConfigMachine.StepRefines | libvanessa_adt/config_file.c:262-342 | each byte moves reader and lexer alike |
| ConfigMachine.RunRefines | libvanessa_adt/config_file.c:213-344 | for every input the reader's array is the lexer's tokens, each added as the key, value or NULL it is, and trimmed from where its pieces say |
| ConfigTrims.TrimsInside | libvanessa_adt/config_file.c:101-121 | for every input, each trim starts inside its token if and only if no token overruns, and inside the buffer if and only if none of 4093 characters does |
| ConfigTrims.SafeIsSheltered | libvanessa_adt/config_file.c:101-121 | trims start no later than the last NUL then in the buffer if and only if every token that overruns is preceded by a strictly longer one, or a NUL lay behind it at first |
| ConfigTrims.SafeForEveryBuffer | libvanessa_adt/config_file.c:101-225 | for every input, no trim leaves the buffer whatever it held at first, if and only if every token that overruns comes after a strictly longer one |
| ConfigTrims.KeptOverreaches | libvanessa_adt/config_file.c:101-191 | `last_escaped` is at most one past the token, and past it at all exactly when a joined line or a dropped escaped character stands before the last blanks as described above |
| ConfigTrims.NoBackslashInside | libvanessa_adt/config_file.c:101-191 | without a backslash in the input every trim starts inside its token |
| ConfigTrims.FittingDoesNotOverreach | libvanessa_adt/config_file.c:101-191 | a token of at most 4093 characters without joined lines is trimmed inside |
| ConfigTrimCases.JoinedLineTrimsBehind | libvanessa_adt/config_file.c:120-191 | an input whose trim starts one behind the terminator and leaves a buffer that held no NUL |
| ConfigTrimCases.LongerLineShelters | libvanessa_adt/config_file.c:120-191 | behind any longer line the same trim stays in the buffer, whatever it held |
| ConfigTrimCases.FullValueTrimsOutside | libvanessa_adt/config_file.c:120-191 | inputs whose trim starts one behind the buffer |
| ConfigTrimCases.LongValueIsCut | libvanessa_adt/config_file.c:209-340 | of a longer value the first 4093 characters are kept |
| ConfigValues.ValueIsDescribed | libvanessa_adt/config_file.c:101-127 | a value that fits is its content up to the last escaped character or closing quote, then the rest without trailing blanks, if and only if its tail does not hold both a blank and a joined line |
| ConfigValues.ValueByPieces | libvanessa_adt/config_file.c:101-127 | the same for values of any length, with the exact condition on their pieces |
| ConfigValues.ValuesOfRun | libvanessa_adt/config_file.c:160-174 | over every input the entries added as values are the texts of the lexer's values, and so as described |
| ConfigValues.ValueWithNul | libvanessa_adt/config_file.c:101-127 | with a NUL that holds of the C string if and only if nothing before the NUL is left to trim |
| ConfigValues.NulCounterexample | libvanessa_adt/config_file.c:101-127 | a value with a NUL where it does not hold |
| ConfigValues.JoinedCounterexample | libvanessa_adt/config_file.c:101-127 | a value with a joined line where it does not hold |
| ConfigLaws.LexConcat | libvanessa_adt/config_file.c:244-344 | lexing a concatenation is lexing the second part from where the first ends |
| ConfigLaws.LeadingBlankStartsValue | libvanessa_adt/config_file.c:263-273 | a blank at the start of a line makes the next character start a value |
| ConfigLaws.CommentErasure | libvanessa_adt/config_file.c:274-296 | a comment and its line end read like the line end alone, whatever follows, if and only if it does not end in a dangling backslash |
| ConfigReading.TokenRun | libvanessa_adt/config_file.c:282-342 | a token written as it stands, behind backslashes, in quotes or over several lines adds exactly its pieces to what is open, or opens a value |
| ConfigReading.RowRun | libvanessa_adt/config_file.c:262-342 | a printed row is read as one line: its key, with MULTI_VALUE each word as a value, else all words and the white space between as one |
| ConfigRoundTrip.WordIsExpected | libvanessa_adt/config_file.c:160-193 | a printed token of at most 4093 characters comes back whole as a value |
| ConfigRoundTrip.KeyIsExpected | libvanessa_adt/config_file.c:140-158 | a printed key comes back whole - with BLANK as it is, with X or one letter behind "-", else behind "--" - if and only if it does not end in a blank, takes no dashes, or takes one and ends in a continued line |
| ConfigRoundTrip.ValuesAreExpected | libvanessa_adt/config_file.c:160-193 | the values of a printed row come back whole if and only if, without MULTI_VALUE, the last does not end in a continued line with white space behind it and room left |
| ConfigRoundTrip.RoundTrip | libvanessa_adt/config_file.c:101-344 | printing any rows in any of the ways there are and reading them gives exactly those keys and values back, with MULTI_VALUE each word and a NULL behind each line with a key, else "" first and one value a line, if and only if every key and every value comes back whole as above; where none ends in a continued line every trim starts inside its token and so stays in the buffer |
| ConfigRoundTrip.UnfinishedIsDropped | libvanessa_adt/config_file.c:244-347 | a token at the end of the input that nothing ends adds no entry |
| ConfigOutput.DashesOfRun | libvanessa_adt/config_file.c:140-158 | over every input each entry added as a key has text, and stands behind no dashes, one or two as above, a NUL as its second character counting as its end |
| ConfigOutput.MultiValueOutput | libvanessa_adt/config_file.c:129-174 | for every input: never a leading or doubled NULL, and each NULL closes a segment in which exactly one entry was added as a key |
| ConfigOutput.SingleValueOutput | libvanessa_adt/config_file.c:235-281 | for every input: a leading empty entry, no NULL, per logical line at most one entry added as a key, then at most one added as a value |
| HashTable.Hash.constructor | libvanessa_adt/hash.c:92-126 | a fresh hash is empty, every bucket NULL |
| HashTable.Hash.Demand | libvanessa_adt/hash.c:361-365 | a bucket's list is made when first needed, without changing the contents |
| HashTable.Hash.Add | libvanessa_adt/hash.c:357-380 | the contents gain exactly the value, in the bucket it hashes to, behind that bucket's first value |
| HashTable.Hash.Get | libvanessa_adt/hash.c:331-344 | succeeds exactly when some stored value matches, and returns the first that does in the list of the key's bucket; contents and order stay |
| HashTable.Hash.ChainOrder | libvanessa_adt/hash.c:357-380 | in each bucket's list the values behind the first stand newest first |
| HashTable.Hash.Remove | libvanessa_adt/hash.c:393-404 | takes out exactly one matching value when there is one, the first in the list of the key's bucket, else changes nothing |
| HashTable.Hash.Count | libvanessa_adt/hash.c:268-284 | the size of the multiset |
| HashTable.Hash.Duplicate | libvanessa_adt/hash.c:416-442 | the copy's buckets hold the same values, each list rotated right by one |
| HashTable.Hash.MatchInBucket | libvanessa_adt/hash.c:298-317 | a stored value that matches lies in the key's own bucket |
| HashTable.DeleteFromSum | libvanessa_adt/hash.c:393-404 | taking one match out of a bucket takes one match out of the whole |
| HashTable.RemoveBag | libvanessa_adt/list.c:573-578 | in every mode list removal is multiset removal of one match |
| HashTable.Hash.SizeOfHistory | libvanessa_adt/hash.c:268-404 | after any calls the count is the adds minus the removals that found something |
| HashTable.RunSize | libvanessa_adt/hash.c:268-404 | the same of every run of the flat multiset |
| DynamicArrays.DynamicArray.constructor | libvanessa_adt/dynamic_array.c:95-121 | an empty array, with the default block size for 0 |
| DynamicArrays.DynamicArray.Add | libvanessa_adt/dynamic_array.c:164-203 | appends, growing by a block when full; refuses only at SSIZE_MAX |
| DynamicArrays.DynamicArray.Delete | libvanessa_adt/dynamic_array.c:222-256 | removes the element at the index, keeps the order, gives a spare block back, but never the last block |
| DynamicArrays.DynamicArray.ReverseInPlace | libvanessa_adt/dynamic_array.c:466-482 | the contents reversed |
| DynamicArrays.DynamicArray.Duplicate | libvanessa_adt/dynamic_array.c:267-292 | a fresh array with the same contents |
| DynamicArrays.DynamicArray.CapacityIsLeast | libvanessa_adt/dynamic_array.c:179-253 | capacity is the least multiple of the block size that holds the elements; 0 or one block when empty |
| DynamicArrays.DynamicArray.Length | libvanessa_adt/dynamic_array.c:314-335 | what the length callback says of each element, with the delimiters between counted twice |
| DynamicArrays.DynamicArray.Display | libvanessa_adt/dynamic_array.c:358-399 | whether every text fits a buffer of the computed length; if so what each text leaves, joined by the delimiter and terminated, also where lengths and texts disagree |
| DynamicArrays.ExactDisplay | libvanessa_adt/dynamic_array.c:314-399 | with a length callback that agrees with the display callback every text fits and nothing is cut off |
| DynamicArrays.DisplayLength | libvanessa_adt/dynamic_array.c:314-399 | then the display's length plus the count less one is the computed length |
| DynamicArrays.SplitStr | libvanessa_adt/dynamic_array.c:497-527 | the fields of the string; every delimiter in it overwritten by a terminator |
| DynamicArrays.SplitStrToInt | libvanessa_adt/dynamic_array.c:544-580 | what `atoi` makes of each field, whatever it makes of one out of range |
| DynamicArrays.DisplayAfterSplit | libvanessa_adt/dynamic_array.c:358-527 | displaying a split string gives the string less one trailing delimiter |
| DynamicArrays.IntDisplayThenSplit | libvanessa_adt/dynamic_array.c:358-580 | displaying ints and splitting them back is the identity if and only if none is INT_MIN |
| DynamicArrays.IntsFitExactly | libvanessa_adt/dynamic_array.c:358-399 | every write of the int display is in bounds if and only if there is room behind every INT_MIN |
| DynamicArrays.IntsFit | libvanessa_adt/dynamic_array.c:358-399 | so it is without INT_MIN |
| DynamicArrays.IntMinDoesNotFit | libvanessa_adt/dynamic_array.c:377-396 | INT_MIN alone: twelve bytes to a buffer of three |
| DynamicArrays.IntMinCanFit | libvanessa_adt/dynamic_array.c:377-396 | INT_MIN before three zeros: twelve bytes to a buffer of twelve |
| DynamicArrays.DisplayAndSplit | libvanessa_adt/dynamic_array.c:358-580 | the two calls run one after the other stay in bounds if and only if there is room behind every INT_MIN, and then give the elements back if and only if none is INT_MIN |
| Text.SplitJoin | libvanessa_adt/dynamic_array.c:513-525 | splitting what was joined gives the fields back |
| Text.AtoiDecimal | libvanessa_adt/element_ops.c:66-69 | reading a printed int gives the int |
| Text.AtoiReads | libvanessa_adt/dynamic_array.c:561-573 | so it does behind white space or a plus sign and before other text |
| ElementOps.PrintedDigits | libvanessa_adt/element_ops.c:66-69 | 1234567890 prints as those digits |
| ElementOps.LengthInt | libvanessa_adt/element_ops.c:81-97 | the loop computes the digits and sign, for INT_MIN what wrapping leaves |
| ElementOps.IntLengthIs | libvanessa_adt/element_ops.c:81-97 | that is the length of the printed int if and only if the int is not INT_MIN |
| ElementOps.MatchIntIsNoOrder | libvanessa_adt/element_ops.c:111-117 | zero exactly on equals; not positive exactly when the subtraction does not overflow; not a total preorder |

## Left out

- File opening, `fstat`, `read` errors, permission checks and logging: I/O. The reader's input is the sequence of
  chunks that `read` delivers.
- Allocation failure and the freeing of nodes, arrays and values: allocation succeeds, elements are values, and a
  duplicated element equals the original. Sizes and counts are unbounded naturals apart from SSIZE_MAX.
- NULL lists, keys and elements in lists and hashes, out-of-range indices and hash values past the bucket count:
  preconditions. NULL elements of dynamic arrays are modelled.
- ConfigFile.Reader.RemoveTrailingWhitespace: when the string it scans does not end in the buffer C reads, and may
  write, behind it; the model then leaves the buffer alone and the reader's `defined` turns false. What is proved of
  the tokens says nothing of a C run from there on.
- LinkedList.List.Display: the terminator that C stores behind the buffer is not stored. Where a text does not fit the
  buffer C overruns it; the displays of lists and arrays then stop, and nothing is said of what they leave.
- ElementOps.LengthInt: C leaves the negation of INT_MIN undefined; the model wraps it. `vanessa_match_int` likewise.
- ConfigRoundTrip.RoundTrip: the printer writes no NUL, and the rows it writes hold at most 4093 characters a key or
  value; longer tokens and tokens with a NUL are the matter of `ConfigValues.ValueByPieces` and
  `ConfigValues.ValueWithNul`.
- DynamicArrays.SplitStrToInt: `atoi` is a parameter; the int results ask that it reads text whose number is an int.
- `vanessa_list_iterate`, `vanessa_hash_iterate`, `vanessa_dynamic_array_get_element` and `get_count`: one loop or one
  access each, easy members.
- `queue.c`, `key_value.c`, `vanessa_hash_display` and `vanessa_hash_length`, and the mode formatting of
  `config_file.c`: they would only add easy members.
