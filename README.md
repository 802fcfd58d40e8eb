# MyRepo data structures and algorithms, modelled in Dafny

This project models the teaching library `com.zy.demo` in Dafny and proves
properties of the model. The library has these parts:

- **Containers** in `util`:
  - an array-backed stack (`StackUtil`);
  - a circular array queue with a Josephus game (`QueueUtil`);
  - a singly linked list (`LinkedListUtil`);
  - a growable character buffer (`StringUtil`);
  - a binary search tree (`TreeUtil`);
  - a key-counting hash table and a two-sum search (`HashTableUtil`);
  - in-place array exercises (`ArrayUtil`).
- **Algorithms** in `algorithm`:
  - five sorts (`Sort`);
  - two binary searches (`Partition`);
  - the longest common substring by a table (`DynamicProgramming`);
  - the towers of Hanoi and Fibonacci numbers (`Recursion`).
- **The builder pattern** in `design/Builder.java`.

Each Java file becomes one Dafny module. Shared pieces have their own modules:

- `Wrappers`: `Option` and `Result`, plus the Java `int` bounds.
- `ModArith`: 32-bit wrap-around.
- `Sequences`: reversal.
- `JavaArrays`: `Arrays.copyOf`.
- `CommonSubstring`: runs shared by two strings.
- `Replacement`: the specification of `StringUtil.replace`.

Classes whose Java methods update fields in place stay classes here:

- `Stack`, `Queue` and `CharBuffer` keep a Java array as an `array` field.
- `LinkedList` is made of `Node` objects joined by `next` links. A ghost sequence `nodes` records the chain of nodes.
- `SearchTree` holds its tree as a datatype value. Each operation replaces that value.
- `HashTable` holds a `map`.
- `UserBuilder` holds the builder's four fields.

Every in-place algorithm is a method on an `array`. Its loops carry their invariants. Each method is proved against a functional specification. For example:

- the sorts are proved sorted and a permutation of the input;
- `Queue.Add` is proved to append to `Contents()`;
- `LinkedList.RemoveAll` is proved to give `Without(old(Contents()), e)`.

A Java `null` argument or result is modelled as `Option.None` or as a nullable reference; the one exception is listed under "## Left out". A thrown exception becomes a `Result.Failure` with a named error. This includes a `NullPointerException` from a null argument or from the null array `findMaxCommon` can leave behind.

## Model

| member | source | states |
|---|---|---|
| StackUtil.Stack.constructor | src/main/java/com/zy/demo/util/StackUtil.java:29-31 | the stack starts empty on the shared empty array |
| StackUtil.Stack.WithCapacity | src/main/java/com/zy/demo/util/StackUtil.java:37-45 | a non-negative capacity gives an empty stack on an array of that length, shared exactly when the capacity is 0 |
| StackUtil.NewStack | src/main/java/com/zy/demo/util/StackUtil.java:37-45 | a negative capacity fails with IllegalCapacity; any other gives an empty stack of that capacity |
| StackUtil.GrownLength | src/main/java/com/zy/demo/util/StackUtil.java:93 | the grown length exceeds the old one; it is 10 when the old length is below the default capacity, otherwise 1.5 times the old length, saturated at INT_MAX |
| StackUtil.Stack.Push | src/main/java/com/zy/demo/util/StackUtil.java:81-101 | e goes on top (Contents grows by e); the shared array is replaced by one of length 10; a full array grows to GrownLength; a full stack at INT_MAX fails with OutOfMemory and changes nothing |
| StackUtil.Stack.Get | src/main/java/com/zy/demo/util/StackUtil.java:126-129 | succeeds exactly for an index the valid check and the array bounds accept, and then returns that slot |
| StackUtil.Stack.Pop | src/main/java/com/zy/demo/util/StackUtil.java:109-116 | an empty stack fails with IndexOutOfBounds; otherwise the top is returned, removed and its slot cleared to null |
| StackUtil.Stack.ModPop | src/main/java/com/zy/demo/util/StackUtil.java:138-142 | the top is overwritten by e; an empty stack fails |
| StackUtil.PushPopRoundTrip | src/main/java/com/zy/demo/util/StackUtil.java:81-116 | a push followed by a pop returns the pushed element and leaves the contents as they were |
| JavaArrays.CopyOf | src/main/java/com/zy/demo/util/QueueUtil.java:86 | a fresh array of the asked length; it holds the old prefix and is padded with the default value |
| QueueUtil.Queue.constructor | src/main/java/com/zy/demo/util/QueueUtil.java:35-37 | an empty queue on an empty array |
| QueueUtil.Queue.WithCapacity | src/main/java/com/zy/demo/util/QueueUtil.java:43-52 | an empty queue on an array of the given length, with head and tail at 0 |
| QueueUtil.NewQueue | src/main/java/com/zy/demo/util/QueueUtil.java:43-52 | a negative capacity fails with IllegalCapacity; any other gives an empty queue of that capacity |
| QueueUtil.GrownLength | src/main/java/com/zy/demo/util/QueueUtil.java:80 | the grown length exceeds the old length and is at least the default capacity |
| QueueUtil.WindowAppend | src/main/java/com/zy/demo/util/QueueUtil.java:109-111 | writing the slot after the tail appends that value to the live window |
| QueueUtil.WindowDrop | src/main/java/com/zy/demo/util/QueueUtil.java:130-134 | advancing head and clearing its slot drops the window's front element |
| QueueUtil.Queue.Expand | src/main/java/com/zy/demo/util/QueueUtil.java:74-96 | a queue with room is left as it is; a full queue moves to a fresh array of GrownLength with head 0 and tail at size, and its contents are kept; a grown length of INT_MAX or more fails with ArrayTooLarge |
| QueueUtil.CopyRing | src/main/java/com/zy/demo/util/QueueUtil.java:86-90 | the fresh array holds the old live window in slots 1..n |
| QueueUtil.Queue.Add | src/main/java/com/zy/demo/util/QueueUtil.java:105-115 | e is appended at the back (Contents grows by e) unless growing fails |
| QueueUtil.Queue.Poll | src/main/java/com/zy/demo/util/QueueUtil.java:124-138 | returns what Peek returned; an empty queue is unchanged; otherwise the front element is removed |
| QueueUtil.Queue.Peek | src/main/java/com/zy/demo/util/QueueUtil.java:147-154 | null for an empty queue, otherwise the front element |
| QueueUtil.InitialRingHoldsEveryone | src/main/java/com/zy/demo/util/QueueUtil.java:175-179 | the filled ring holds each of the people 1..n exactly once |
| QueueUtil.RingAfterAdds | src/main/java/com/zy/demo/util/QueueUtil.java:175-179 | n adds to a queue of capacity n leave the array as the ring InitialRing(n) |
| QueueUtil.Ring | src/main/java/com/zy/demo/util/QueueUtil.java:175-179 | the queue built by the n adds is full and its array holds InitialRing(n) |
| QueueUtil.Advance | src/main/java/com/zy/demo/util/QueueUtil.java:189 | the slot counted out from head is inside the ring |
| QueueUtil.CloseGap | src/main/java/com/zy/demo/util/QueueUtil.java:203-205 | the shifting loop removes slot h and moves the later slots one down |
| QueueUtil.RemoveNext | src/main/java/com/zy/demo/util/QueueUtil.java:189-209 | one round removes the person at Advance(head, out), appends them to the result, shrinks the array by one and moves head one back |
| QueueUtil.JosephusStepAt | src/main/java/com/zy/demo/util/QueueUtil.java:187-210 | the elimination order is the person removed first, then the order of the remaining ring |
| QueueUtil.EliminationStep | src/main/java/com/zy/demo/util/QueueUtil.java:187-210 | one round keeps the result so far plus the order of the rest equal to the whole order |
| QueueUtil.EliminateAll | src/main/java/com/zy/demo/util/QueueUtil.java:187-210 | the loop fills the result array with the elimination order |
| QueueUtil.JosephusOrderPermutes | src/main/java/com/zy/demo/util/QueueUtil.java:187-210 | every person of the ring leaves exactly once |
| QueueUtil.JosephusOrderIsPermutation | src/main/java/com/zy/demo/util/QueueUtil.java:165-215 | for any start and count, the order is a permutation of 1..n |
| QueueUtil.JosephusFiveTwo | src/main/java/com/zy/demo/util/QueueUtil.java:165-215 | five people counted out by 2 from person 1 leave as 2, 4, 1, 5, 3 |
| QueueUtil.Josephus | src/main/java/com/zy/demo/util/QueueUtil.java:165-215 | null when n or out is not positive; otherwise the elimination order from start (start at most 0 means 1), which is a permutation of 1..n |
| QueueUtil.ExpandAsWritten | src/main/java/com/zy/demo/util/QueueUtil.java:86-90 | the copy as written, reading the array it is overwriting, has the grown length |
| QueueUtil.ExpandAsWrittenLosesElement | src/main/java/com/zy/demo/util/QueueUtil.java:86-90 | a full queue of capacity 3 holding b, c, d with head 1 comes out of the copy as b, c, b |
| QueueUtil.ExpandAsWrittenFromZero | src/main/java/com/zy/demo/util/QueueUtil.java:86-90 | with head 0 the copy as written keeps the queue's contents |
| LinkedListUtil.Node.constructor | src/main/java/com/zy/demo/util/LinkedListUtil.java:518-521 | a node holding e that links to next, with no prev |
| LinkedListUtil.LinkedList.constructor | src/main/java/com/zy/demo/util/LinkedListUtil.java:23-25 | the empty list |
| LinkedListUtil.LinkedList.Single | src/main/java/com/zy/demo/util/LinkedListUtil.java:31-35 | the list holding only e |
| LinkedListUtil.ChainDistinct | src/main/java/com/zy/demo/util/LinkedListUtil.java:509-529 | a chain of next links that ends in null never visits a node twice |
| LinkedListUtil.LinkedList.Size | src/main/java/com/zy/demo/util/LinkedListUtil.java:41-43 | the counter equals the number of elements |
| LinkedListUtil.LinkedList.ExistIndex | src/main/java/com/zy/demo/util/LinkedListUtil.java:66-68 | true exactly when the index names an element |
| LinkedListUtil.LinkedList.GetElement | src/main/java/com/zy/demo/util/LinkedListUtil.java:88-103 | the element at the index, or null exactly when the index names none |
| LinkedListUtil.IndicesOfExact | src/main/java/com/zy/demo/util/LinkedListUtil.java:112-134 | the collected positions are exactly those holding the element, in strictly ascending order |
| LinkedListUtil.IndicesOfEmpty | src/main/java/com/zy/demo/util/LinkedListUtil.java:129-133 | no positions are collected exactly when the element is absent |
| LinkedListUtil.LinkedList.GetIndex | src/main/java/com/zy/demo/util/LinkedListUtil.java:112-134 | null exactly when e is absent; otherwise the ascending positions of e |
| LinkedListUtil.LinkedList.ExistElement | src/main/java/com/zy/demo/util/LinkedListUtil.java:77-79 | true exactly when e is in the list |
| LinkedListUtil.LinkedList.AddLast | src/main/java/com/zy/demo/util/LinkedListUtil.java:192-204 | always succeeds; e becomes the last element and the list stays well linked |
| LinkedListUtil.LinkedList.InsertFirst | src/main/java/com/zy/demo/util/LinkedListUtil.java:166-170 | e goes in front of a non-empty list |
| LinkedListUtil.LinkedList.InsertAfter | src/main/java/com/zy/demo/util/LinkedListUtil.java:171-176 | e lands at the given inner position and the later elements move one on |
| LinkedListUtil.LinkedList.Add | src/main/java/com/zy/demo/util/LinkedListUtil.java:144-183 | succeeds exactly for index 0 or an existing index; e then lands at that index; otherwise nothing changes |
| LinkedListUtil.LinkedList.Mod | src/main/java/com/zy/demo/util/LinkedListUtil.java:214-233 | succeeds exactly for an existing index; that element becomes e and nothing else changes |
| LinkedListUtil.ReplaceAllEffect | src/main/java/com/zy/demo/util/LinkedListUtil.java:243-258 | after replacing a by a different b no a is left, other elements keep their place, and replacing again changes nothing |
| LinkedListUtil.LinkedList.Replace | src/main/java/com/zy/demo/util/LinkedListUtil.java:243-258 | every occurrence of oldElement becomes newElement; the result says whether there was one |
| LinkedListUtil.LinkedList.DropFirst | src/main/java/com/zy/demo/util/LinkedListUtil.java:283-284 | unlinking the first of several nodes drops the first element |
| LinkedListUtil.LinkedList.DropOnly | src/main/java/com/zy/demo/util/LinkedListUtil.java:285-288 | unlinking the only node empties the list |
| LinkedListUtil.LinkedList.DropLast | src/main/java/com/zy/demo/util/LinkedListUtil.java:333-336 | unlinking the last node drops the last element and moves last to the node before |
| LinkedListUtil.LinkedList.DropAfter | src/main/java/com/zy/demo/util/LinkedListUtil.java:293-297 | unlinking an inner node drops exactly that element |
| LinkedListUtil.LinkedList.Remove | src/main/java/com/zy/demo/util/LinkedListUtil.java:267-305 | succeeds exactly for an existing index; that element is removed and the list stays well linked; otherwise nothing changes |
| LinkedListUtil.LinkedList.DropLastAsWritten | src/main/java/com/zy/demo/util/LinkedListUtil.java:293-297 | cutting the last node as written leaves last on the removed node |
| LinkedListUtil.LinkedList.RemoveAsWritten | src/main/java/com/zy/demo/util/LinkedListUtil.java:267-305 | the chain of elements is right, but after removing the last of several nodes last still names the removed node and the list is no longer well formed |
| LinkedListUtil.WithoutCounts | src/main/java/com/zy/demo/util/LinkedListUtil.java:314-350 | removing x keeps every other element as often as before and drops one element per occurrence of x |
| LinkedListUtil.WithoutShift | src/main/java/com/zy/demo/util/LinkedListUtil.java:324-347 | one visited node is dropped exactly when it holds x, and the final result is unchanged |
| LinkedListUtil.LinkedList.UnlinkAt | src/main/java/com/zy/demo/util/LinkedListUtil.java:325-345 | one removal drops exactly the node at its position, in all four cases of the source, and returns a node whose next is where the walk goes on |
| LinkedListUtil.LinkedList.RemoveAllStep | src/main/java/com/zy/demo/util/LinkedListUtil.java:324-348 | one pass of the walk removes the visited node exactly when it holds e |
| LinkedListUtil.LinkedList.RemoveAll | src/main/java/com/zy/demo/util/LinkedListUtil.java:314-350 | the list afterwards is the old one without e, in order; the count returned is the number of occurrences of e |
| LinkedListUtil.LinkPrev | src/main/java/com/zy/demo/util/LinkedListUtil.java:369-373 | one step of the first loop sets node's prev to the node before it |
| LinkedListUtil.LinkBack | src/main/java/com/zy/demo/util/LinkedListUtil.java:369-373 | the first loop makes every prev link name the node before, changing no element |
| LinkedListUtil.ReversedFromIndex | src/main/java/com/zy/demo/util/LinkedListUtil.java:377-381 | a sequence whose k-th element is the k-th from the end is the reversal |
| LinkedListUtil.AppendBackward | src/main/java/com/zy/demo/util/LinkedListUtil.java:377-381 | walking back from last along prev and appending builds the reversed list |
| LinkedListUtil.Reverse | src/main/java/com/zy/demo/util/LinkedListUtil.java:359-383 | null for a null or empty list; otherwise a fresh list holding the elements in reverse; the input keeps its elements |
| LinkedListUtil.ReverseGroupsSnoc | src/main/java/com/zy/demo/util/LinkedListUtil.java:415-433 | appending one whole block of k appends its reversal to the block-wise reversal |
| LinkedListUtil.ReverseGroupsOfOne | src/main/java/com/zy/demo/util/LinkedListUtil.java:393-435 | reversing blocks of one changes nothing |
| LinkedListUtil.BlockEnd | src/main/java/com/zy/demo/util/LinkedListUtil.java:420 | the count reaches a multiple of k exactly at the end of a block |
| LinkedListUtil.AppendPrev | src/main/java/com/zy/demo/util/LinkedListUtil.java:425-429 | one inner step appends the node reached going back and moves to its prev |
| LinkedListUtil.AppendBlock | src/main/java/com/zy/demo/util/LinkedListUtil.java:420-430 | the inner loop appends the last k elements seen, reversed |
| LinkedListUtil.ReverseGroupsPrefix | src/main/java/com/zy/demo/util/LinkedListUtil.java:420-430 | the block-wise reversal of q blocks, followed by the next block reversed, is the block-wise reversal of q + 1 blocks |
| LinkedListUtil.CloseBlock | src/main/java/com/zy/demo/util/LinkedListUtil.java:420-430 | after a full block the new list holds the block-wise reversal of everything seen |
| LinkedListUtil.ReverseKStep | src/main/java/com/zy/demo/util/LinkedListUtil.java:415-433 | one pass of the outer loop keeps the new list equal to the block-wise reversal of the blocks completed |
| LinkedListUtil.ReverseK | src/main/java/com/zy/demo/util/LinkedListUtil.java:393-435 | null for a null or empty list, k < 1 or a size not divisible by k; otherwise a fresh list holding each block of k reversed in place |
| LinkedListUtil.GetMiddleElement | src/main/java/com/zy/demo/util/LinkedListUtil.java:444-466 | null for a null list or an even size; otherwise the element at position size / 2 |
| LinkedListUtil.ExistLoopAsWritten | src/main/java/com/zy/demo/util/LinkedListUtil.java:475-503 | as written, a non-empty list of even size dereferences null; otherwise the answer is false |
| LinkedListUtil.ExistLoop | src/main/java/com/zy/demo/util/LinkedListUtil.java:475-503 | with the null check on the fast node, a list built by these operations never has a loop |
| StringUtil.ExpandedLength | src/main/java/com/zy/demo/util/StringUtil.java:80-87 | the new length holds what was asked for and the default size, and stays below twice the request |
| StringUtil.CharBuffer.constructor | src/main/java/com/zy/demo/util/StringUtil.java:26-28 | an empty text on an empty array |
| StringUtil.CharBuffer.WithCapacity | src/main/java/com/zy/demo/util/StringUtil.java:34-42 | an empty text on an array of the given length |
| StringUtil.NewCharBuffer | src/main/java/com/zy/demo/util/StringUtil.java:34-42 | a negative capacity fails with IllegalCapacity; any other gives an empty text of that capacity |
| StringUtil.CharBuffer.FromChars | src/main/java/com/zy/demo/util/StringUtil.java:48-51 | the text is the given characters, or empty for null |
| StringUtil.CharBuffer.Expand | src/main/java/com/zy/demo/util/StringUtil.java:80-87 | the text is kept in a fresh array of ExpandedLength |
| StringUtil.CharBuffer.AddLast | src/main/java/com/zy/demo/util/StringUtil.java:96-114 | null or empty input changes nothing; otherwise the characters are appended and the array is trimmed to the text; when the array is null, the same input fails with NullPointer and changes nothing |
| StringUtil.InsertAt | src/main/java/com/zy/demo/util/StringUtil.java:146-153 | the shifting and copying loops put the inserted characters between the text's prefix and suffix |
| StringUtil.CharBuffer.Add | src/main/java/com/zy/demo/util/StringUtil.java:124-157 | an index outside the text, null or empty input changes nothing; otherwise the characters are inserted at the index and the array is trimmed; when the array is null, the same input fails with NullPointer and changes nothing |
| StringUtil.CharBuffer.CountMatches | src/main/java/com/zy/demo/util/StringUtil.java:203-210 | all characters match exactly when the pattern occurs at i |
| StringUtil.OccurrenceFound | src/main/java/com/zy/demo/util/StringUtil.java:212-219 | recording a match at i keeps the positions found equal to the occurrences so far |
| StringUtil.OccurrenceMissed | src/main/java/com/zy/demo/util/StringUtil.java:195-222 | skipping a position where the pattern does not start loses no occurrence |
| StringUtil.CharBuffer.GetIndexes | src/main/java/com/zy/demo/util/StringUtil.java:187-226 | the result lists every position where the pattern occurs, overlapping ones included, in ascending order |
| Replacement.OccurrencesMeaning | src/main/java/com/zy/demo/util/StringUtil.java:187-226 | the listed positions are exactly the occurrences, strictly ascending |
| StringUtil.CharBuffer.Contains | src/main/java/com/zy/demo/util/StringUtil.java:166-178 | true exactly when the input is non-null, non-empty, no longer than the text and occurs in it; such an input fails with NullPointer exactly when the array is null |
| Replacement.ReplaceAllMatch | src/main/java/com/zy/demo/util/StringUtil.java:236-364 | replacing in a suffix that starts with the pattern gives the replacement and then the replaced rest |
| Replacement.ReplaceAllSkip | src/main/java/com/zy/demo/util/StringUtil.java:236-364 | a suffix that does not start with the pattern keeps its first character |
| Replacement.ReplaceAllLength | src/main/java/com/zy/demo/util/StringUtil.java:272-344 | each replaced occurrence changes the length by the difference of the two lengths |
| Replacement.ReplaceAllNoMatch | src/main/java/com/zy/demo/util/StringUtil.java:252-254 | a text without occurrences is left unchanged |
| Replacement.ReplaceAllSelf | src/main/java/com/zy/demo/util/StringUtil.java:350-360 | replacing a pattern by itself changes nothing |
| Replacement.SpliceEachShifted | src/main/java/com/zy/demo/util/StringUtil.java:276-278 | adjusting the positions still to come is the same as carrying the shift along |
| Replacement.SpliceEachStep | src/main/java/com/zy/demo/util/StringUtil.java:256-361 | one pass of the outer loop splices at the first position and shifts the rest |
| Replacement.SpliceEachGreedy | src/main/java/com/zy/demo/util/StringUtil.java:256-361 | splicing at the non-overlapping occurrences from left to right is the replacement of every occurrence |
| Replacement.DropOverlapsGreedy | src/main/java/com/zy/demo/util/StringUtil.java:250 | dropping from the found positions each one that overlaps an earlier kept one leaves the left-to-right occurrences |
| Replacement.DropOverlapsSpaced | src/main/java/com/zy/demo/util/StringUtil.java:250 | positions that are already spaced apart are all kept |
| StringUtil.DropOverlapping | src/main/java/com/zy/demo/util/StringUtil.java:250 | the method computes the positions left once the overlapping ones are dropped |
| Replacement.ReplaceCorrectedIsReplaceAll | src/main/java/com/zy/demo/util/StringUtil.java:236-364 | replacing at the non-overlapping positions is the left-to-right replacement of every occurrence, for every text |
| Replacement.AsWrittenWithoutOverlap | src/main/java/com/zy/demo/util/StringUtil.java:236-364 | without overlapping occurrences the source's replace already gives that result |
| Replacement.ReplaceOverlapCounterexample | src/main/java/com/zy/demo/util/StringUtil.java:272-278 | as written, replacing "aa" by "b" in "aaa" gives "b" where "ba" is meant, and deleting "aa" from "aaa" sends a position below zero |
| StringUtil.ShiftPositions | src/main/java/com/zy/demo/util/StringUtil.java:308-310 | the positions still to be processed move by d and the earlier ones stay |
| StringUtil.CharBuffer.OverwriteAt | src/main/java/com/zy/demo/util/StringUtil.java:353-359 | equal lengths: the occurrence is overwritten in place |
| StringUtil.CharBuffer.ShrinkAt | src/main/java/com/zy/demo/util/StringUtil.java:289-306 | a shorter replacement is written, the rest moves left, and the array is trimmed |
| StringUtil.CharBuffer.GrowAt | src/main/java/com/zy/demo/util/StringUtil.java:319-344 | a longer replacement is written, the rest moves right, and the array grows to fit |
| StringUtil.CharBuffer.ReplaceStep | src/main/java/com/zy/demo/util/StringUtil.java:256-361 | one occurrence is replaced and the remaining splices still give the target |
| StringUtil.CharBuffer.SpliceAll | src/main/java/com/zy/demo/util/StringUtil.java:256-361 | the loop over all positions produces the target text |
| StringUtil.CharBuffer.Replace | src/main/java/com/zy/demo/util/StringUtil.java:236-364 | an empty text, null or empty pattern, null replacement, a pattern longer than the text, or no occurrence changes nothing; otherwise the text becomes the left-to-right replacement of every occurrence; equal lengths keep the array; past the argument checks a null array fails with NullPointer and changes nothing |
| CommonSubstring.CommonRunMatches | src/main/java/com/zy/demo/util/StringUtil.java:393-404 | the counted run is shared by both strings and cannot be extended |
| CommonSubstring.CommonRunAtLeast | src/main/java/com/zy/demo/util/StringUtil.java:393-404 | no shared run from the same pair of positions is longer |
| StringUtil.MatchRun | src/main/java/com/zy/demo/util/StringUtil.java:387-404 | the inner loop copies the longest shared run from (i, j) into a fresh buffer |
| StringUtil.ScanNewBest | src/main/java/com/zy/demo/util/StringUtil.java:406-409 | a strictly longer run becomes the best so far |
| StringUtil.ScanNext | src/main/java/com/zy/demo/util/StringUtil.java:381-412 | a run no longer than the best leaves the best unchanged |
| StringUtil.ScanRow | src/main/java/com/zy/demo/util/StringUtil.java:383-411 | the scan of one row keeps the best run, the first longest seen |
| StringUtil.ScanFound | src/main/java/com/zy/demo/util/StringUtil.java:414-417 | at the end the best run is a longest common substring, reached first |
| StringUtil.ScanFoundNothing | src/main/java/com/zy/demo/util/StringUtil.java:377-417 | a scan that found no run means the strings share no character |
| StringUtil.LongestRun | src/main/java/com/zy/demo/util/StringUtil.java:381-412 | a run that no pair of positions beats is a longest common substring |
| StringUtil.CharBuffer.FindMaxCommon | src/main/java/com/zy/demo/util/StringUtil.java:372-419 | null or empty input gives null and changes nothing; the array is null exactly when no character is shared; otherwise it holds the first longest common substring |
| StringUtil.ReversePrefix | src/main/java/com/zy/demo/util/StringUtil.java:432-438 | the first n cells are reversed in place and the rest stay |
| StringUtil.CharBuffer.Reverse | src/main/java/com/zy/demo/util/StringUtil.java:427-440 | the text is reversed and the slots past it are untouched; a null array fails with NullPointer exactly when there are at least two characters |
| TreeUtil.SearchTree.constructor | src/main/java/com/zy/demo/util/TreeUtil.java:24-26 | the empty tree |
| TreeUtil.SearchTree.WithRoot | src/main/java/com/zy/demo/util/TreeUtil.java:32-35 | a single root holding e |
| TreeUtil.OrderedKeyed | src/main/java/com/zy/demo/util/TreeUtil.java:218-249 | every node of a search tree holds a value |
| TreeUtil.PreOrder | src/main/java/com/zy/demo/util/TreeUtil.java:80-87 | one entry per node, exactly the tree's values, the root first |
| TreeUtil.InOrder | src/main/java/com/zy/demo/util/TreeUtil.java:109-116 | one entry per node, exactly the tree's values |
| TreeUtil.PostOrder | src/main/java/com/zy/demo/util/TreeUtil.java:138-145 | one entry per node, exactly the tree's values, the root last |
| TreeUtil.InOrderAscending | src/main/java/com/zy/demo/util/TreeUtil.java:109-116 | the in-order traversal of a search tree is strictly ascending |
| TreeUtil.LastIsMax | src/main/java/com/zy/demo/util/TreeUtil.java:400-406 | the last value of the in-order traversal is the tree's largest value |
| TreeUtil.AddToMeaning | src/main/java/com/zy/demo/util/TreeUtil.java:218-249 | the descent inserts k exactly when it is absent, keeps the search order, and the size grows by one exactly then |
| TreeUtil.AddFlagCounterexample | src/main/java/com/zy/demo/util/TreeUtil.java:218-249 | adding 4 below the right child 3 of root 2 inserts a node although the source answers false |
| TreeUtil.SearchTree.Add | src/main/java/com/zy/demo/util/TreeUtil.java:195-208 | an empty tree gets e as root; null input answers false; a null root value throws; otherwise e is inserted when absent, and the answer says whether it was |
| TreeUtil.SearchFromMeaning | src/main/java/com/zy/demo/util/TreeUtil.java:284-299 | in a search tree the descent finds exactly the values present |
| TreeUtil.SearchTree.Search | src/main/java/com/zy/demo/util/TreeUtil.java:257-275 | true exactly when the tree is non-empty, e is non-null and e is in the tree |
| TreeUtil.RemoveFromMeaning | src/main/java/com/zy/demo/util/TreeUtil.java:338-428 | the node holding k is removed exactly when there is one; a node with two children takes its in-order predecessor; the search order is kept and the size drops by one |
| TreeUtil.SearchTree.Remove | src/main/java/com/zy/demo/util/TreeUtil.java:307-325 | true exactly when e is non-null and in the tree; e is then removed and size drops by one; otherwise nothing changes |
| TreeUtil.SearchTree.PreOrderTraversal | src/main/java/com/zy/demo/util/TreeUtil.java:63-73 | null for an empty tree; a null root value throws; otherwise every value once, the root first |
| TreeUtil.SearchTree.InOrderTraversal | src/main/java/com/zy/demo/util/TreeUtil.java:95-102 | null for an empty tree; otherwise every value once, in strictly ascending order |
| TreeUtil.SearchTree.PostOrderTraversal | src/main/java/com/zy/demo/util/TreeUtil.java:124-131 | null for an empty tree; otherwise every value once, the root last |
| TreeUtil.NextLevelWeight | src/main/java/com/zy/demo/util/TreeUtil.java:171-186 | the nodes one level down number the nodes below the level minus the level's own |
| TreeUtil.BfsPrefix | src/main/java/com/zy/demo/util/TreeUtil.java:171-186 | polling a whole prefix of the queue appends its children after the rest |
| TreeUtil.BfsIsLevelOrder | src/main/java/com/zy/demo/util/TreeUtil.java:171-186 | polling one node at a time visits the tree level by level |
| TreeUtil.LayerOrder | src/main/java/com/zy/demo/util/TreeUtil.java:153-188 | one value per node, the root first |
| TreeUtil.PollStep | src/main/java/com/zy/demo/util/TreeUtil.java:173-185 | one poll keeps the values written so far equal to the nodes polled and queued, within the array |
| TreeUtil.PollEnd | src/main/java/com/zy/demo/util/TreeUtil.java:171-187 | once the queue is empty the array holds the level order |
| TreeUtil.OfferKids | src/main/java/com/zy/demo/util/TreeUtil.java:175-184 | the children's values are written after the values already written |
| TreeUtil.LayerOrderFrom | src/main/java/com/zy/demo/util/TreeUtil.java:159-187 | the fresh array holds the values in level order |
| TreeUtil.SearchTree.LayerOrderTraversal | src/main/java/com/zy/demo/util/TreeUtil.java:153-188 | null exactly for an empty tree; otherwise a fresh array of the values in level order |
| Sort.Swap | src/main/java/com/zy/demo/algorithm/Sort.java:38-40 | the two cells are exchanged; the array is a permutation of itself |
| Sort.BubblePass | src/main/java/com/zy/demo/algorithm/Sort.java:35-42 | one pass sinks the smallest of the unsorted prefix to its end, permuting only that prefix |
| Sort.BubbleSort | src/main/java/com/zy/demo/algorithm/Sort.java:25-45 | null for null or empty input; otherwise the same array, in descending order, a permutation of the input |
| Sort.InsertStep | src/main/java/com/zy/demo/algorithm/Sort.java:71-78 | one comparison of the inner loop keeps the partly inserted prefix in order |
| Sort.InsertPass | src/main/java/com/zy/demo/algorithm/Sort.java:69-79 | one pass extends the ascending prefix by one cell, permuting only that prefix |
| Sort.InsertionSort | src/main/java/com/zy/demo/algorithm/Sort.java:61-81 | null for null or empty input; otherwise the same array, in ascending order, a permutation of the input |
| Sort.MaxIndexFrom | src/main/java/com/zy/demo/algorithm/Sort.java:106-113 | the first index of the largest value from i on |
| Sort.SelectStep | src/main/java/com/zy/demo/algorithm/Sort.java:104-120 | swapping the largest remaining value into place extends the descending prefix |
| Sort.SelectionSort | src/main/java/com/zy/demo/algorithm/Sort.java:96-122 | the same array, in descending order, a permutation of the input |
| Sort.MergePermutes | src/main/java/com/zy/demo/algorithm/Sort.java:181-209 | the merge holds exactly the elements of the two runs |
| Sort.MergeSorted | src/main/java/com/zy/demo/algorithm/Sort.java:181-209 | the merge of two ascending runs is ascending |
| Sort.MergeFromExhausted | src/main/java/com/zy/demo/algorithm/Sort.java:198-204 | once one run is used up, the rest of the merge is the other run's rest |
| Sort.MergeStep | src/main/java/com/zy/demo/algorithm/Sort.java:189-196 | one pass of the first loop writes the smaller head, the left one on a tie |
| Sort.MergeHeads | src/main/java/com/zy/demo/algorithm/Sort.java:189-196 | the first loop writes the merge up to where one run is used up |
| Sort.CopyRun | src/main/java/com/zy/demo/algorithm/Sort.java:198-204 | the tail loops copy a run into the result unchanged |
| Sort.MergeIntoResult | src/main/java/com/zy/demo/algorithm/Sort.java:183-204 | the result range holds the merge of the two runs |
| Sort.MergeKeepsOrder | src/main/java/com/zy/demo/algorithm/Sort.java:206-208 | copying the merge back makes the range ascending and permutes the array |
| Sort.DoMergeSortMerge | src/main/java/com/zy/demo/algorithm/Sort.java:181-209 | the range becomes the merge of its two ascending halves; the rest is unchanged |
| Sort.DoMergeSortBinary | src/main/java/com/zy/demo/algorithm/Sort.java:158-171 | the range low..high becomes ascending, the array a permutation, the rest unchanged |
| Sort.MergeSort | src/main/java/com/zy/demo/algorithm/Sort.java:138-149 | the same array, in ascending order, a permutation of the input |
| Sort.QuickPartition | src/main/java/com/zy/demo/algorithm/Sort.java:252-276 | the pivot lands at i with larger or equal values before it and smaller or equal after; only the range is permuted |
| Sort.QuickJoin | src/main/java/com/zy/demo/algorithm/Sort.java:278-280 | sorting both sides of a placed pivot sorts the range descending |
| Sort.DoQuickRecursion | src/main/java/com/zy/demo/algorithm/Sort.java:246-281 | the range becomes descending, the array a permutation, the rest unchanged |
| Sort.QuickSort | src/main/java/com/zy/demo/algorithm/Sort.java:225-238 | for any pivot index, the same array, in descending order, a permutation of the input |
| ArrayUtil.Overturn | src/main/java/com/zy/demo/util/ArrayUtil.java:91-103 | a null array fails with NullPointer; otherwise the array is reversed in place |
| ArrayUtil.OverturnTwice | src/main/java/com/zy/demo/util/ArrayUtil.java:91-103 | overturning twice gives the original array back |
| ArrayUtil.HasRepeat | src/main/java/com/zy/demo/util/ArrayUtil.java:30-37 | true exactly when two scores are equal |
| ArrayUtil.ScanExtremes | src/main/java/com/zy/demo/util/ArrayUtil.java:39-59 | false exactly when a score is outside 0..100; otherwise the first highest and first lowest score with their positions |
| ArrayUtil.DropTwoIndex | src/main/java/com/zy/demo/util/ArrayUtil.java:61-75 | where each element ends up once two positions are removed |
| ArrayUtil.ShiftLeft | src/main/java/com/zy/demo/util/ArrayUtil.java:68-70 | the cells after k move one to the left and the last cell stays |
| ArrayUtil.RemoveTwo | src/main/java/com/zy/demo/util/ArrayUtil.java:61-75 | the two positions are removed and the last two cells become 0 |
| ArrayUtil.DropTwoIsWithout | src/main/java/com/zy/demo/util/ArrayUtil.java:61-75 | removing the two positions of the extremes removes the two values |
| ArrayUtil.Score | src/main/java/com/zy/demo/util/ArrayUtil.java:18-84 | null or fewer than five scores, a repeated score or one outside 0..100 fail and change nothing; otherwise the highest and lowest score are found and removed, and the last two cells become 0 |
| ArrayUtil.CountAll | src/main/java/com/zy/demo/util/ArrayUtil.java:112-122 | the map counts every value of the array |
| ArrayUtil.MaxCount | src/main/java/com/zy/demo/util/ArrayUtil.java:124-130 | the largest count in the map |
| ArrayUtil.KeysWithCount | src/main/java/com/zy/demo/util/ArrayUtil.java:132-138 | exactly the keys with the given count, each once |
| ArrayUtil.CalcTimes | src/main/java/com/zy/demo/util/ArrayUtil.java:110-142 | a null array fails with NullPointer and an empty one with EmptyArray; otherwise the most frequent values, each once, and their count |
| ArrayUtil.SqueezedLength | src/main/java/com/zy/demo/util/ArrayUtil.java:150-175 | collapsing runs removes one element per equal adjacent pair |
| ArrayUtil.SqueezedElements | src/main/java/com/zy/demo/util/ArrayUtil.java:150-175 | collapsing runs keeps exactly the values present |
| ArrayUtil.SqueezedStrictly | src/main/java/com/zy/demo/util/ArrayUtil.java:150-175 | on a sorted array every value is left once, in strictly ascending order |
| ArrayUtil.RemoveDupAsWritten | src/main/java/com/zy/demo/util/ArrayUtil.java:150-175 | the count is the number of equal adjacent pairs, and the cells are the sweep the source performs |
| ArrayUtil.AsWrittenKeepsDuplicate | src/main/java/com/zy/demo/util/ArrayUtil.java:160-173 | on [1, 1, 1, 2] the sweep leaves [1, 1] in front where [1, 2] is meant |
| ArrayUtil.RemoveDup | src/main/java/com/zy/demo/util/ArrayUtil.java:150-175 | null or empty input is rejected; otherwise the count of removed duplicates, with the array's front holding each run once |
| HashTableUtil.HashTable.constructor | src/main/java/com/zy/demo/util/HashTableUtil.java:38-40 | the table starts empty |
| HashTableUtil.Count | src/main/java/com/zy/demo/util/HashTableUtil.java:48-60 | the count of a key is positive exactly when it was submitted |
| HashTableUtil.HashTable.CalcKeySubmit | src/main/java/com/zy/demo/util/HashTableUtil.java:48-60 | a null key answers -1 and changes nothing; otherwise the key's count goes up by one (to 1 if new) and the answer is how often it has been submitted |
| HashTableUtil.IndexMapKeys | src/main/java/com/zy/demo/util/HashTableUtil.java:82-96 | the map's keys are exactly the values read |
| HashTableUtil.IndexMapIndex | src/main/java/com/zy/demo/util/HashTableUtil.java:82-96 | each value maps to the last index holding it |
| HashTableUtil.FirstRepeat | src/main/java/com/zy/demo/util/HashTableUtil.java:86-89 | the first index whose value occurred before, or the length |
| HashTableUtil.AnswersSound | src/main/java/com/zy/demo/util/HashTableUtil.java:91-93 | every answer pairs an earlier index with a later one whose values sum to the target in 32-bit arithmetic |
| HashTableUtil.TwoSumStep | src/main/java/com/zy/demo/util/HashTableUtil.java:82-96 | one pass adds the answer for the partner seen earlier, if any, and maps the value to its index |
| HashTableUtil.TwoSumStop | src/main/java/com/zy/demo/util/HashTableUtil.java:86-89 | stopping at the first repeat, or at the end, gives the whole output |
| HashTableUtil.FindTwoSum | src/main/java/com/zy/demo/util/HashTableUtil.java:68-97 | null, short input or a target below 1 prints nothing; otherwise the answers up to the first repeated value, then the duplicate message |
| HashTableUtil.AnswersComplete | src/main/java/com/zy/demo/util/HashTableUtil.java:82-95 | every pair of indices before the first repeated value whose values sum to the target in 32-bit arithmetic is among the answers, paired with the earlier index |
| HashTableUtil.OutputComplete | src/main/java/com/zy/demo/util/HashTableUtil.java:62-97 | the whole output reports every such pair, as the method's comment promises |
| Partition.IfExist | src/main/java/com/zy/demo/algorithm/Partition.java:20-51 | true only when the target is present; on an ascending array, exactly when it is present |
| Partition.FirstNumLoop | src/main/java/com/zy/demo/algorithm/Partition.java:71-84 | the loop answers -1 or a present value greater than the target, and -1 when none is greater |
| Partition.FindFirstNumAsWritten | src/main/java/com/zy/demo/algorithm/Partition.java:59-85 | the search as written is the loop over the whole array |
| Partition.FirstGreaterIndex | src/main/java/com/zy/demo/algorithm/Partition.java:59-85 | the index of the first element greater than the target |
| Partition.AsWrittenMissesFirst | src/main/java/com/zy/demo/algorithm/Partition.java:75-82 | on [1, 3, 5] with target 2 the search as written answers -1 where 3 is meant |
| Partition.AsWrittenSkipsFirst | src/main/java/com/zy/demo/algorithm/Partition.java:75-82 | on [5, 6, 7] with target 1 the search as written answers 6 where 5 is meant |
| Partition.FindFirstNum | src/main/java/com/zy/demo/algorithm/Partition.java:59-85 | -1 for null or empty input; any other answer is a present value above the target; on an ascending array, the first value greater than the target |
| CommonSubstring.CommonSuffixMatches | src/main/java/com/zy/demo/algorithm/DynamicProgramming.java:22-30 | each table entry is the length of a run shared by both strings |
| CommonSubstring.CommonSuffixAtLeast | src/main/java/com/zy/demo/algorithm/DynamicProgramming.java:22-30 | no shared run ending at the same pair of positions is longer |
| DynamicProgramming.FillTable | src/main/java/com/zy/demo/algorithm/DynamicProgramming.java:20-30 | each table entry is the longest common run ending at that pair of positions |
| DynamicProgramming.ScanTable | src/main/java/com/zy/demo/algorithm/DynamicProgramming.java:32-44 | the scan keeps the largest entry, the first one found |
| DynamicProgramming.ScanResultIsLongest | src/main/java/com/zy/demo/algorithm/DynamicProgramming.java:46-50 | the substring the scan selects is a longest common substring |
| DynamicProgramming.ScanResultIsEarliest | src/main/java/com/zy/demo/algorithm/DynamicProgramming.java:36-50 | no common substring as long ends earlier in the first string |
| DynamicProgramming.GetCommonStr | src/main/java/com/zy/demo/algorithm/DynamicProgramming.java:15-52 | a longest common substring, the one ending first in str1 |
| Recursion.Peg.constructor | src/main/java/com/zy/demo/algorithm/Recursion.java:52 | an empty peg |
| Recursion.Peg.Push | src/main/java/com/zy/demo/algorithm/Recursion.java:75 | the disk goes on top |
| Recursion.Peg.Pop | src/main/java/com/zy/demo/algorithm/Recursion.java:75 | the top disk is removed and returned |
| Recursion.Peg.Clear | src/main/java/com/zy/demo/algorithm/Recursion.java:44 | the peg becomes empty |
| Recursion.LegalAfterSplit | src/main/java/com/zy/demo/algorithm/Recursion.java:73-77 | both recursive moves start from legal positions when the whole move does |
| Recursion.Move | src/main/java/com/zy/demo/algorithm/Recursion.java:66-78 | the top n disks go from x to z in the same order, with 2^n - 1 pushes; from a legal position no disk is ever put on a smaller one |
| Recursion.HanoiTower | src/main/java/com/zy/demo/algorithm/Recursion.java:33-78 | null for a null or empty x; when z is x itself, x is emptied and the call fails, with NoSuchElement for one disk and StackOverflow for more, since move then starts from 0 disks and never reaches 1; otherwise x is emptied and the tower, in order, is on z (a fresh peg when z is null); a well-stacked tower never has a disk on a smaller one |
| Recursion.SumResultWrapsFib | src/main/java/com/zy/demo/algorithm/Recursion.java:106-117 | the recursion in 32-bit arithmetic is the Fibonacci number wrapped to 32 bits |
| Recursion.SumResultIsFib | src/main/java/com/zy/demo/algorithm/Recursion.java:106-117 | a Fibonacci number that fits in an int is returned as it is |
| Recursion.Fibonacci | src/main/java/com/zy/demo/algorithm/Recursion.java:92-99 | nx below 3 is rejected; otherwise the nx-th Fibonacci number, wrapped to 32 bits |
| ModArith.Wrap | src/main/java/com/zy/demo/algorithm/Recursion.java:116 | the result is an int congruent to x modulo 2^32, and an int is kept as it is |
| ModArith.WrapAdd | src/main/java/com/zy/demo/algorithm/Recursion.java:116 | wrapping the operands does not change a wrapped sum |
| Builder.UserBuilder.constructor | src/main/java/com/zy/demo/design/Builder.java:57-65 | every field starts at its Java default |
| Builder.UserBuilder.Id | src/main/java/com/zy/demo/design/Builder.java:72-75 | sets id, returns the same builder, changes no other field |
| Builder.UserBuilder.Name | src/main/java/com/zy/demo/design/Builder.java:82-85 | sets name, returns the same builder, changes no other field |
| Builder.UserBuilder.Age | src/main/java/com/zy/demo/design/Builder.java:92-95 | sets age, returns the same builder, changes no other field |
| Builder.UserBuilder.Sex | src/main/java/com/zy/demo/design/Builder.java:102-105 | sets sex, returns the same builder, changes no other field |
| Builder.Validate | src/main/java/com/zy/demo/design/Builder.java:111-122 | succeeds exactly when every rule accepts, with a User holding the fields; otherwise the first broken rule, checked in the source's order: id, then name, then age |
| Builder.UserBuilder.Build | src/main/java/com/zy/demo/design/Builder.java:111-122 | build applied to the builder's current fields |
| Builder.BuildDemoUser | src/main/java/com/zy/demo/design/Builder.java:9-12 | the demo chain builds the user 20, "zy", 27, '男' |
| Sequences.ReversedIndex | src/main/java/com/zy/demo/util/ArrayUtil.java:97-101 | reversal puts the element k places from the front k places from the back |
| Sequences.ReversedInvolution | src/main/java/com/zy/demo/util/StringUtil.java:427-440 | reversing twice gives the sequence back |

## Left out

- Integer width:
  - Capacities, sizes, counters and queue indices are unbounded integers.
  - The only 32-bit overflow guards modelled are the ones the source writes: push's `INT_MAX` check and expand's length check.
  - `QueueUtil.Queue.Add`, `QueueUtil.GrownLength` and `StringUtil.ExpandedLength` compute `len * 3 / 2` without 32-bit wrap-around. In Java, `len * 3` overflows once `len` is above 715,827,882 (`INT_MAX / 3`). The model does not follow that wrap; it grows such arrays as if no overflow happened.
  - `sumResult`, `fibonacci` and the two-sum difference do wrap to 32 bits, as Java does.
- Equality:
  - `LinkedListUtil` and `StringUtil` compare elements with `==`. For boxed or reference elements that is reference identity.
  - The model compares values. So `GetIndex`, `Replace` and `RemoveAll` match every equal element.
- Keys:
  - `TreeUtil` and `HashTableUtil` order or look up keys by `hashCode` and `equals`.
  - The model takes `int` tree values, since an `Integer`'s hash code is its value. Hash-table keys are strings compared by value. Hash collisions between distinct keys are not modelled.
- TreeUtil:
  - Nodes are a datatype value replaced on every update. So node identity and the in-place relinking of `left` and `right` are not modelled, and neither is the unused `TreeNode.parent`.
  - The commented-out deletion by the right subtree's minimum is not modelled.
  - The bounded `ArrayBlockingQueue` is a sequence. The tree never holds more nodes than its size, so the bound is never hit.
  - The exceptions `search` and `remove` use for control flow are the boolean result. The `NullPointerException` they catch from a null root value is the answer false.
- Text output:
  - `toString` methods, `System.out.println` and `Builder.main`'s printing are not modelled.
  - `score` prints an average computed in `float`. The model stops at the array left after removing the extremes.
  - `calcTimes` and `findTwoSum` print their answers. The model returns them as values; each two-sum line is a `Line`.
  - `josephus` returns the result as a sequence rather than `Arrays.toString`.
- Randomness: `quickSort` draws its pivot index from `java.util.Random`. `Sort.QuickSort` takes that index as a parameter and is proved for every index.
- Not part of this model:
  - the design-pattern files other than `Builder.java`;
  - the `config` class loaders;
  - the commented-out code in `QueueUtil.java` after `josephus`.
- Reversal methods: `LinkedListUtil.reverse(list)` and `reverse(list, k)` ignore their receiver. `LinkedListUtil.Reverse`, `LinkedListUtil.ReverseK`, `LinkedListUtil.GetMiddleElement` and `LinkedListUtil.ExistLoop` are module-level methods that take the list.
- Linked-list cycles: `LinkedListUtil.ExistLoop` states only `!r`. The operations modelled keep the list acyclic, so a cycle that `existLoop` could detect is never built.
- Inputs: `DynamicProgramming.GetCommonStr` takes strings, not nullable references. The source dereferences both arguments at once, so null input is not modelled.
- Java `long`: `Builder.UserBuilder.Id` stores an unbounded integer for Java's `long` id. The setter does no arithmetic, so no width matters.

## Findings

| source | as written | input that shows it | evidently intended | confidence | as-written member | corrected member |
|---|---|---|---|---|---|---|
| src/main/java/com/zy/demo/util/QueueUtil.java:86-90 | `expand` copies into the new array and then reads the slots to move from that same, already overwritten array | a full queue of capacity 3 holding b, c, d with head at slot 1 comes out as b, c, b | copy each element from the old array, so the queue keeps its contents | not executed | QueueUtil.ExpandAsWrittenLosesElement | QueueUtil.Queue.Expand |
| src/main/java/com/zy/demo/util/LinkedListUtil.java:293-297 | `remove` of the last of several nodes unlinks it but leaves `last` pointing at it | a list 1, 2 and `remove(1)`: `last` still names the node holding 2, so a later `addLast` is lost | move `last` to the node before, as `removeAll` does | not executed | LinkedListUtil.LinkedList.RemoveAsWritten | LinkedListUtil.LinkedList.Remove |
| src/main/java/com/zy/demo/util/LinkedListUtil.java:489-495 | `existLoop` tests `fastNode.next` but not `fastNode`, which becomes null two steps on | any list of even length, e.g. 1, 2: the second round dereferences null | stop when `fastNode` or `fastNode.next` is null | not executed | LinkedListUtil.ExistLoopAsWritten | LinkedListUtil.ExistLoop |
| src/main/java/com/zy/demo/util/ArrayUtil.java:160-173 | `removeDup` overwrites cells in place instead of compacting with a write index | [1, 1, 1, 2] becomes [1, 1, 2, 2] with count 2, so the kept prefix [1, 1] still has a duplicate | keep each run once at the front: [1, 2, ...] with count 2 | not executed | ArrayUtil.AsWrittenKeepsDuplicate | ArrayUtil.RemoveDup |
| src/main/java/com/zy/demo/algorithm/Partition.java:75-82 | `findFirstNum` moves `high` left past the answer and never comes back, and accepts a middle when the target is no more than the previous element | [1, 3, 5] with target 2 gives -1; [5, 6, 7] with target 1 gives 6 | the first element greater than the target: 3 and 5 | not executed | Partition.AsWrittenMissesFirst | Partition.FindFirstNum |
| src/main/java/com/zy/demo/util/StringUtil.java:272-278 | `replace` splices at every position `getIndexes` found, overlapping ones included | replacing "aa" by "b" in "aaa" gives "b"; deleting "aa" from "aaa" sets the size to -1, and `Arrays.copyOf` then throws | replace the non-overlapping occurrences from left to right: "ba" and "a" | not executed | Replacement.ReplaceOverlapCounterexample | StringUtil.CharBuffer.Replace |
| src/main/java/com/zy/demo/util/TreeUtil.java:218-249 | the private `add` discards the result of its recursive calls and returns false | tree 2 with right child 3, adding 4: a node is inserted but `add` answers false | answer true whenever a node is inserted | not executed | TreeUtil.AddFlagCounterexample | TreeUtil.SearchTree.Add |
