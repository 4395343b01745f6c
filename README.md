# GPU-programming-Fall2025: the C core, modelled and proved in Dafny

This project models the C programs of the course repository
Khameedeh/GPU-programming-Fall2025 that the profiling exercises run, and
proves what they compute. Only the `int32_t` variants are modelled.

The C sources are:

- `docs/02-Getting-started-with-profiling/matrix_multiplication.c`. This is the
  profiling demo. It multiplies two matrices in one of three loop orders. In
  its I/O mode it writes a text file of zeros with raw `write` calls, then reads
  the file back with raw `read` calls and a hand-written digit scanner.
- `homeworks/homework-1/problem-2/code/matrix_multiplication.c`. This is the
  homework version of that program. It has the same kernel, a size taken from
  the command line, and a row-sum pass `process_matrix_data`.
- `homeworks/homework-1/problem-1/code/src/sort.c`. This file holds the array
  sorts (insertion, bubble and merge sort) and the linked-list sorts
  (insertion, bubble and merge sort).
- `homeworks/homework-1/problem-1/code/src/io.c`. This file holds the readers
  for a count followed by values, into an array or into a list, and the
  sortedness checks.
- `homeworks/homework-1/problem-1/code/src/options.c`. This file holds the
  command line and YAML-subset option parser of the sorting benchmark.

The Dafny modules follow those files.

| module | file | what it holds |
|---|---|---|
| `Wrappers` | `wrappers.dfy` | `Option` |
| `SortSpec` | `sort_spec.dfy` | `Sorted`, the reference `Merge`, `MergeSort` and `InsertionSort`, permutation and sortedness lemmas, uniqueness of a sorted permutation |
| `ArraySort` | `array_sort.dfy` | `insertion_sort_int`, `bubble_sort_int`, `merge_int`, `mergesort_int_rec` and `mergesort_int` as methods on `array<int>` |
| `NodeList` | `node_list.dfy` | the `NodeInt` node of `sort.h` as a class with fields `v` and `next`, and the ghost description of a list by its node sequence |
| `ListSort` | `list_sort.dfy` | `list_insertion_sort_int` and `list_bubble_sort_int`, relinking or swapping the nodes in place |
| `ListMergeSort` | `list_mergesort.dfy` | `list_split_int`, `list_merge_int` and `list_mergesort_int` |
| `IntIo` | `int_io.dfy` | `read_size_from_file`, `read_int_array_from_file`, `read_int_list_from_file`, `is_sorted_int_array` and `is_sorted_int_list` |
| `OptionStrings` | `option_strings.dfy` | the C-string helpers of `options.c` on NUL-terminated `array<char>` buffers: `lc_copy`, `ltrim`, `rtrim_inplace`, `trim_inplace`, `strip_inline_comment`, `unquote_inplace`, `str_ieq` and `parse_bool` |
| `OptionParsing` | `options.dfy` | the enum parsers, the config-line interpreter, `load_config_yaml`, `set_defaults` and the two-pass `parse_options`, with an `Options` class whose fields these update |
| `MatrixKernel` | `matrix_kernel.dfy` | the shared `multiply` kernel as three loop nests on `array2<int>`, the order names and the random fill |
| `ProfilingDemo` | `profiling_demo.dfy` | the demo's `multiply` with its fatal default, `create_and_write_matrices`, `read_matrix` with its byte scanner, and `main` |
| `HomeworkMatrix` | `homework_matrix.dfy` | the homework's `multiply`, `process_matrix_data`, `atoi` on decimal text, and `main` |

Each in-place C algorithm is a Dafny method on an array or on heap nodes. Its
contract ties the new contents to a pure reference function of the old
contents. The lemmas then prove that the reference functions sort, permute,
round-trip or agree with each other.

Some things in the model stand in for the outside world:

- A file read with `fscanf` is a sequence of tokens. Each token is an integer
  or junk.
- A file read with `fgets` is the sequence of lines `fgets` returns.
- The files that `fopen` can open are a map `fs` from path to lines.
- A file read with `read` is the sequence of chunks each call returns.
- The text written by `create_and_write_matrices` is its result.
- The values of `rand()` are a parameter `rnd`.

Behaviour of the code that the model keeps as written:

- A failing `read` in `read_matrix` only calls `perror` and returns with
  whatever was stored (docs/02-Getting-started-with-profiling/matrix_multiplication.c:99).
  The model leaves the read error out, so the stored values are those scanned
  from the chunks that arrived.
- `read_matrix` sets the sign on any `-` inside a number, not only a leading
  one (same file, lines 83-84), and `ProfilingDemo.Step` does the same.
- Both `multiply` functions add into `C` (`C[i][j] += ...`), so the kernel
  contracts state `C[i, j] == old(C[i, j]) + Dot(...)`; C holds the product
  only because it starts at zero.
- The homework `main` needs the program name and three arguments (`argc >= 4`,
  homeworks/homework-1/problem-2/code/matrix_multiplication.c:143). Its
  `multiply` has no default branch (lines 18-38): an unknown order leaves `C`
  unchanged.

## Model

| member | source | states |
|---|---|---|
| SortSpec.AdjacentSortedIffSorted | homeworks/homework-1/problem-1/code/src/io.c:136-138 | checking each neighbouring pair, as the validators do, is the same as every earlier element being at most every later one |
| SortSpec.MergePermutes | homeworks/homework-1/problem-1/code/src/sort.c:51-57 | the merge of two runs holds exactly the elements of both runs |
| SortSpec.MergeHead | homeworks/homework-1/problem-1/code/src/sort.c:53 | the first element of a merge is the smaller head, and the left head on a tie |
| SortSpec.MergeSorted | homeworks/homework-1/problem-1/code/src/sort.c:51-57 | merging two sorted runs gives a sorted run |
| SortSpec.MergeSortUnfold | homeworks/homework-1/problem-1/code/src/sort.c:59-65 | a segment of two or more elements sorts as the merge of its sorted left half (the longer one) and its sorted right half |
| SortSpec.MergeSortPermutes | homeworks/homework-1/problem-1/code/src/sort.c:59-65 | merge sort is a permutation of its input |
| SortSpec.MergeSortSorted | homeworks/homework-1/problem-1/code/src/sort.c:59-65 | merge sort output is sorted |
| SortSpec.InsertFromRightPermutes | homeworks/homework-1/problem-1/code/src/sort.c:9-12 | inserting a key adds exactly that key to the sorted prefix |
| SortSpec.InsertFromRightSorted | homeworks/homework-1/problem-1/code/src/sort.c:9-12 | inserting a key into a sorted prefix keeps it sorted and brings in no other value |
| SortSpec.InsertionSortPermutes | homeworks/homework-1/problem-1/code/src/sort.c:7-14 | insertion sort is a permutation of its input |
| SortSpec.InsertionSortSorted | homeworks/homework-1/problem-1/code/src/sort.c:7-14 | insertion sort output is sorted |
| SortSpec.SortedPermutationUnique | homeworks/homework-1/problem-1/code/src/sort.c:7-73 | two sorted permutations of the same values are equal, so every correct sort gives one answer |
| SortSpec.SortsAgree | homeworks/homework-1/problem-1/code/src/sort.c:7-73 | insertion sort and merge sort give the same sequence on every input |
| ArraySort.InsertionSortInt | homeworks/homework-1/problem-1/code/src/sort.c:7-14 | the first `n` cells become the reference insertion sort of their old contents, and the cells after `n` are untouched |
| ArraySort.InsertOne | homeworks/homework-1/problem-1/code/src/sort.c:9-12 | one outer iteration extends the sorted prefix by the next element and leaves later cells alone |
| ArraySort.ShiftLarger | homeworks/homework-1/problem-1/code/src/sort.c:11 | the inner loop stops at the first cell from the right whose left neighbour is at most the key; every larger element moves one cell right and nothing else moves |
| ArraySort.InsertionPoint | homeworks/homework-1/problem-1/code/src/sort.c:11-12 | writing the key where the shift stopped is the reference insertion |
| ArraySort.InsertionSortSnoc | homeworks/homework-1/problem-1/code/src/sort.c:8-13 | sorting one more element is inserting it into the sorted prefix |
| ArraySort.BubbleSortInt | homeworks/homework-1/problem-1/code/src/sort.c:25-35 | the first `n` cells become sorted and a permutation of their old contents, later cells are untouched, and fewer than two cells are left as they were |
| ArraySort.BubblePass | homeworks/homework-1/problem-1/code/src/sort.c:29-33 | one pass moves the largest active element to the end of the active part, keeps the multiset, and clears `swapped` only when the whole prefix is sorted |
| ArraySort.CompareSwap | homeworks/homework-1/problem-1/code/src/sort.c:31 | a compare-and-swap orders one neighbouring pair, reports whether it swapped, and changes nothing else |
| ArraySort.PassStep | homeworks/homework-1/problem-1/code/src/sort.c:31 | the step keeps the multiset, orders the pair and leaves every other cell alone |
| ArraySort.PassStepKeeps | homeworks/homework-1/problem-1/code/src/sort.c:30-32 | a step keeps the settled suffix and carries the running maximum one cell right, and it changes nothing on an already ordered pair |
| ArraySort.PassEnd | homeworks/homework-1/problem-1/code/src/sort.c:33-34 | after a pass the settled part grows by one, and a pass without a swap leaves the whole prefix sorted |
| ArraySort.MergeInt | homeworks/homework-1/problem-1/code/src/sort.c:51-57 | `a[lo..hi]` becomes the reference merge of its two sorted halves, and the rest of `a` is unchanged |
| ArraySort.MergeHeads | homeworks/homework-1/problem-1/code/src/sort.c:52-53 | the first loop writes a prefix of the merge into `tmp`, and what is left in both runs completes it |
| ArraySort.TakeHead | homeworks/homework-1/problem-1/code/src/sort.c:53 | one step copies the smaller head, or the left head on a tie, and advances exactly one index |
| ArraySort.HeadsDone | homeworks/homework-1/problem-1/code/src/sort.c:53-55 | when one run is used up, the prefix written plus what remains of both runs is the whole merge |
| ArraySort.MergeUsedUp | homeworks/homework-1/problem-1/code/src/sort.c:54-55 | once either run is empty, the merge is the concatenation of the runs |
| ArraySort.CopyRun | homeworks/homework-1/problem-1/code/src/sort.c:54-56 | a copy loop puts the run at offset `k` and leaves the rest of the destination alone |
| ArraySort.MergeSortIntRec | homeworks/homework-1/problem-1/code/src/sort.c:59-65 | `a[lo..hi]` becomes the reference merge sort of its old contents, and nothing outside the segment changes |
| ArraySort.MergeSortStep | homeworks/homework-1/problem-1/code/src/sort.c:61-64 | sorting both halves and then merging is the merge sort of the segment |
| ArraySort.MergeSortSplit | homeworks/homework-1/problem-1/code/src/sort.c:61 | the split `mid = lo + (hi - lo) / 2` is the split of the reference merge sort |
| ArraySort.MergeSortInt | homeworks/homework-1/problem-1/code/src/sort.c:67-73 | the first `n` cells become their merge sort, which is sorted and a permutation; later cells are untouched, and fewer than two cells are left as they were |
| NodeList.NodeInt.constructor | homeworks/homework-1/problem-1/code/include/sort.h:8 | a new node holds its value and no successor |
| NodeList.IsListTail | homeworks/homework-1/problem-1/code/include/sort.h:8 | the tail of a described list is described by the rest of the node sequence |
| NodeList.LinkedFront | homeworks/homework-1/problem-1/code/src/sort.c:107 | linking a node that is not yet in a list in front of it gives a list one node longer |
| ListSort.InsertLeftAt | homeworks/homework-1/problem-1/code/src/sort.c:107-111 | the key goes in front of the first element that is not smaller than it |
| ListSort.InsertLeftPermutes | homeworks/homework-1/problem-1/code/src/sort.c:107-111 | inserting a node adds exactly its value |
| ListSort.InsertLeftSorted | homeworks/homework-1/problem-1/code/src/sort.c:107-111 | inserting into a sorted list keeps it sorted |
| ListSort.ListInsertionSortSorted | homeworks/homework-1/problem-1/code/src/sort.c:103-115 | the list insertion sort is sorted |
| ListSort.ListInsertionSortPermutes | homeworks/homework-1/problem-1/code/src/sort.c:103-115 | the list insertion sort is a permutation of its input |
| ListSort.ListInsertionSortAgrees | homeworks/homework-1/problem-1/code/src/sort.c:103-115 | inserting from the left into a list gives the same result as the array insertion sort |
| ListSort.ListInsertionSortInt | homeworks/homework-1/problem-1/code/src/sort.c:103-115 | the returned head starts a list of exactly the input nodes, relinked, whose values are the list insertion sort of the old values: sorted and a permutation |
| ListSort.InsertHead | homeworks/homework-1/problem-1/code/src/sort.c:106-112 | one outer iteration detaches the head, inserts its value into the sorted list, and leaves the unread nodes linked as before |
| ListSort.LinkSorted | homeworks/homework-1/problem-1/code/src/sort.c:107-111 | the node is linked into the sorted list at its place, and the node set grows by that one node |
| ListSort.LinkAtHead | homeworks/homework-1/problem-1/code/src/sort.c:107 | an empty list, or a key at most the first value, puts the node in front |
| ListSort.LinkedAtFront | homeworks/homework-1/problem-1/code/src/sort.c:107 | after the front link the list and its values are the old ones with the node first |
| ListSort.LinkBehind | homeworks/homework-1/problem-1/code/src/sort.c:108-111 | otherwise the node goes behind the last node whose value is smaller, and the list stays sorted |
| ListSort.FindSpot | homeworks/homework-1/problem-1/code/src/sort.c:109-110 | the walk stops at the last node whose value is smaller than the key; every value before it is smaller, and the next value, if there is one, is not |
| ListSort.LinkedBehind | homeworks/homework-1/problem-1/code/src/sort.c:111 | relinking behind node `k - 1` inserts the node at position `k` in the node and value sequences |
| ListSort.ListBubbleSortInt | homeworks/homework-1/problem-1/code/src/sort.c:131-140 | the links are unchanged, and the values become sorted and a permutation of the old values |
| ListSort.BubblePass | homeworks/homework-1/problem-1/code/src/sort.c:135-138 | one pass over the whole list keeps the links and the multiset of values, settles one more element, and clears `swapped` only on a sorted list |
| ListSort.CompareSwapNext | homeworks/homework-1/problem-1/code/src/sort.c:137 | a compare-and-swap of a node's value with its successor's is the array step on the value sequence, and the links stay |
| ListSort.SwapWithNext | homeworks/homework-1/problem-1/code/src/sort.c:137 | the swap exchanges two neighbouring values and changes no link |
| ListMergeSort.ListSplitInt | homeworks/homework-1/problem-1/code/src/sort.c:155-159 | the slow/fast walk cuts the list after its first `(n + 1) / 2` nodes, making two lists, and only the cut node's link changes |
| ListMergeSort.SplitLinked | homeworks/homework-1/problem-1/code/src/sort.c:158 | setting the cut node's link to NULL leaves two well-formed lists |
| ListMergeSort.ListMergeInt | homeworks/homework-1/problem-1/code/src/sort.c:160-164 | the merged list uses exactly the nodes of both inputs, and its values are the reference merge |
| ListMergeSort.MergeLeft | homeworks/homework-1/problem-1/code/src/sort.c:162 | on a tie or a smaller left head, the left node comes first |
| ListMergeSort.MergeRight | homeworks/homework-1/problem-1/code/src/sort.c:163 | otherwise the right node comes first |
| ListMergeSort.LinkFront | homeworks/homework-1/problem-1/code/src/sort.c:162-163 | setting a head's link in front of a merged tail gives a list with that value first |
| ListMergeSort.ListMergeSortInt | homeworks/homework-1/problem-1/code/src/sort.c:165-170 | the result uses exactly the input nodes, and its values are the reference merge sort, so they are sorted and a permutation |
| ListMergeSort.SortAndMerge | homeworks/homework-1/problem-1/code/src/sort.c:168-169 | sorting both halves and merging them gives the merge of their merge sorts |
| ListMergeSort.HalvesOf | homeworks/homework-1/problem-1/code/src/sort.c:155-159 | the two halves are disjoint and together hold every node of the list |
| IntIo.ToU64 | homeworks/homework-1/problem-1/code/src/io.c:7-8 | `%llu` yields a value in `0..ULLONG_MAX`, exact for values in range and negated modulo 2^64 for a minus sign |
| IntIo.ToI64 | homeworks/homework-1/problem-1/code/src/io.c:28-29 | `%lld` yields a value in the `long long` range, exact for values in range |
| IntIo.Wrap32 | homeworks/homework-1/problem-1/code/src/io.c:33 | `(int32_t)` gives an `int32_t` congruent to the value modulo 2^32, and the value itself when it fits |
| IntIo.ReadSizeRange | homeworks/homework-1/problem-1/code/src/io.c:6-12 | of an integer header only 0 is rejected; a header in range is the count; a negative one such as -1 wraps modulo 2^64 to a huge count; a magnitude beyond 64 bits saturates to `ULLONG_MAX`; a missing or non-integer header is rejected |
| IntIo.ReadValuesSpec | homeworks/homework-1/problem-1/code/src/io.c:27-35 | reading `n` values succeeds exactly when `n` integer tokens are present, and value `i` is token `i` narrowed |
| IntIo.ReadIntsSpec | homeworks/homework-1/problem-1/code/src/io.c:16-40 | the readers succeed exactly on a positive count followed by that many integers, which become the values in order |
| IntIo.ReadIntsOfIntFile | homeworks/homework-1/problem-1/code/src/io.c:16-40 | reading a file written as a count and `int32_t` values gives back exactly those values, whatever follows |
| IntIo.ReadIntsShort | homeworks/homework-1/problem-1/code/src/io.c:29-32 | a count larger than the number of values present makes the read fail |
| IntIo.ReadIntArrayFromFile | homeworks/homework-1/problem-1/code/src/io.c:16-40 | status 0 exactly when the file is well formed; then a fresh array of the values, its length and their sum; on failure status 1 and the outputs untouched |
| IntIo.StoreValue | homeworks/homework-1/problem-1/code/src/io.c:33-34 | one iteration stores the narrowed value in cell `i`, extends the values read, and adds the stored value to the checksum |
| IntIo.ReadIntListFromFile | homeworks/homework-1/problem-1/code/src/io.c:70-100 | on a well-formed file, a list of fresh nodes holding the values in file order, its length and the sum; otherwise NULL and `*n_out` and `*checksum_out` untouched |
| IntIo.ReadNode | homeworks/homework-1/problem-1/code/src/io.c:80-94 | one iteration appends a fresh node with the next narrowed value at the tail and adds it to the checksum |
| IntIo.AppendNode | homeworks/homework-1/problem-1/code/src/io.c:94 | appending at the tail extends the node and value sequences by one |
| IntIo.IsSortedIntArray | homeworks/homework-1/problem-1/code/src/io.c:136-138 | returns 1 exactly when the first `n` cells are in non-decreasing order, and 0 otherwise |
| IntIo.IsSortedIntList | homeworks/homework-1/problem-1/code/src/io.c:142-144 | returns 1 exactly when the list values are in non-decreasing order, and in particular for the empty list |
| OptionStrings.CLen | homeworks/homework-1/problem-1/code/src/options.c:18 | `strlen` is the index of the first NUL, with no NUL before it |
| OptionStrings.CLenOf | homeworks/homework-1/problem-1/code/src/options.c:18 | a NUL-free text followed by a NUL has its own length |
| OptionStrings.StrLen | homeworks/homework-1/problem-1/code/src/options.c:18 | the scan for the NUL returns `strlen` |
| OptionStrings.LcCopy | homeworks/homework-1/problem-1/code/src/options.c:17-23 | the destination holds the lowercase of at most `dstsz - 1` source characters and a NUL, and its later bytes are untouched |
| OptionStrings.TrimSpec | homeworks/homework-1/problem-1/code/src/options.c:49-51 | trimming keeps one contiguous slice and drops only white space on either side |
| OptionStrings.TrimEnds | homeworks/homework-1/problem-1/code/src/options.c:49-51 | a trimmed text neither starts nor ends with white space |
| OptionStrings.TrimIdempotent | homeworks/homework-1/problem-1/code/src/options.c:49-51 | trimming twice is trimming once |
| OptionStrings.LtrimIndex | homeworks/homework-1/problem-1/code/src/options.c:49 | `ltrim` returns the index of the first non-space character, and the text from there is the left-trimmed text |
| OptionStrings.RtrimInPlace | homeworks/homework-1/problem-1/code/src/options.c:50 | the buffer holds the right-trimmed text, and exactly the trailing-space bytes became NUL |
| OptionStrings.MoveDown | homeworks/homework-1/problem-1/code/src/options.c:51 | `memmove` down by `from` copies `count` bytes and leaves the rest |
| OptionStrings.TrimInPlace | homeworks/homework-1/problem-1/code/src/options.c:51 | the buffer holds the trimmed text, and nothing from the old NUL on is written |
| OptionStrings.StripFrom | homeworks/homework-1/problem-1/code/src/options.c:53-60 | stripping keeps a prefix of the text and stops only at a `#` |
| OptionStrings.StripStep | homeworks/homework-1/problem-1/code/src/options.c:56-58 | one character toggles a quote state when outside the other quote, and cuts at a `#` outside both |
| OptionStrings.StripNoHash | homeworks/homework-1/problem-1/code/src/options.c:53-60 | a text without `#` is left whole |
| OptionStrings.QuotedKept | homeworks/homework-1/problem-1/code/src/options.c:56-58 | a `#` inside a quoted run does not start a comment |
| OptionStrings.StripInlineComment | homeworks/homework-1/problem-1/code/src/options.c:53-60 | the buffer holds the stripped text, and only the comment's `#` byte became NUL |
| OptionStrings.UnquoteSpec | homeworks/homework-1/problem-1/code/src/options.c:61-69 | matching outer quotes are removed, text without them is unchanged, and a change always removes one matching quote pair |
| OptionStrings.UnquoteInPlace | homeworks/homework-1/problem-1/code/src/options.c:61-69 | the buffer holds the unquoted text |
| OptionStrings.StrIeq | homeworks/homework-1/problem-1/code/src/options.c:70-77 | true exactly when both strings have the same length and the same lowercase |
| OptionStrings.ParseBool | homeworks/homework-1/problem-1/code/src/options.c:78-82 | status 0 and the value for `true`, `yes`, `on` or `1` and for `false`, `no`, `off` or `0` in any case; status 1 with `out` untouched otherwise |
| OptionParsing.ParsersExact | homeworks/homework-1/problem-1/code/src/options.c:25-40 | each enum parser accepts exactly the names of its values and returns the value named |
| OptionParsing.Find | homeworks/homework-1/problem-1/code/src/options.c:104 | `strchr` finds the first occurrence, or none |
| OptionParsing.OtherKey | homeworks/homework-1/problem-1/code/src/options.c:123-137 | the keys file, verify, output and write_output never touch layout, algorithm or type, or their mask bits |
| OptionParsing.KeyMask | homeworks/homework-1/problem-1/code/src/options.c:114-122 | a mandatory setting's mask bit is set after a key exactly when it was set before or this key validly sets it |
| OptionParsing.LineMask | homeworks/homework-1/problem-1/code/src/options.c:97-137 | the same holds for one config line |
| OptionParsing.MaskMeaning | homeworks/homework-1/problem-1/code/src/options.c:90-141 | after a whole file, a mandatory mask bit is set exactly when it was set before or some line of the file sets it |
| OptionParsing.SkippedLines | homeworks/homework-1/problem-1/code/src/options.c:99-105 | blank lines, `---` lines and lines without a colon change nothing |
| OptionParsing.KeyCaseInsensitive | homeworks/homework-1/problem-1/code/src/options.c:111 | keys that differ only in case have the same effect |
| OptionParsing.KeyAliases | homeworks/homework-1/problem-1/code/src/options.c:117-131 | `alg` and `algorithm`, `t` and `type`, `file` and `path`, and `output`, `out` and `output_path` act alike |
| OptionParsing.Flag | homeworks/homework-1/problem-1/code/src/options.c:179-208 | one argument step consumes one argument, or two when it takes a value |
| OptionParsing.ConfigMaskOf | homeworks/homework-1/problem-1/code/src/options.c:158-177 | the mask the second pass starts from marks exactly the mandatory settings that the named, openable config file sets |
| OptionParsing.MandatorySettings | homeworks/homework-1/problem-1/code/src/options.c:155-215 | `parse_options` returns 0 exactly when no flag value is bad and layout, algorithm and type each come from a flag or from a config line |
| OptionParsing.CliOverridesConfig | homeworks/homework-1/problem-1/code/src/options.c:174-208 | every setting given on the command line wins, whatever the config file says |
| OptionParsing.BadFlagFails | homeworks/homework-1/problem-1/code/src/options.c:181-192 | a bad `-layout`, `-alg` or `-t` value fails the pass, and as the first argument it makes `parse_options` return 1 |
| OptionParsing.FlagCaseInsensitive | homeworks/homework-1/problem-1/code/src/options.c:182-191 | a short `-layout`, `-alg` or `-t` value is accepted in any case |
| OptionParsing.Options.constructor | homeworks/homework-1/problem-1/code/include/options.h:4-18 | a new `Options` holds the given settings |
| OptionParsing.Options.SetDefaults | homeworks/homework-1/problem-1/code/src/options.c:145-153 | the fields become the defaults: array, insertion, int, `list.txt`, no verify, `output.txt`, no write |
| OptionParsing.Options.ApplyKey | homeworks/homework-1/problem-1/code/src/options.c:114-137 | the fields and mask after one key are the key's effect on the old ones |
| OptionParsing.Options.LoadLine | homeworks/homework-1/problem-1/code/src/options.c:98-137 | the fields and mask after one line are that line's effect |
| OptionParsing.Options.LoadConfigYaml | homeworks/homework-1/problem-1/code/src/options.c:90-141 | status 0 and every line applied in order when the file opens; status 1 and nothing changed when it does not |
| OptionParsing.Options.ParseOptions | homeworks/homework-1/problem-1/code/src/options.c:155-215 | the status and the fields left are those of the two-pass reference, whose meaning the lemmas above state |
| OptionParsing.Options.SecondPass | homeworks/homework-1/problem-1/code/src/options.c:175-213 | the command line patches the fields; status 0 unless a value is bad or a mandatory setting is set neither by the file nor by a flag |
| OptionParsing.Options.CliStep | homeworks/homework-1/problem-1/code/src/options.c:180-207 | one iteration of the argument loop is the reference step |
| OptionParsing.Options.EnumFlag | homeworks/homework-1/problem-1/code/src/options.c:181-192 | a `-layout`, `-alg` or `-t` argument lowercases its value into 16 bytes and parses it |
| OptionParsing.Options.PlainFlag | homeworks/homework-1/problem-1/code/src/options.c:193-207 | the other arguments set their field or are skipped, and never touch layout, algorithm or type |
| OptionParsing.FirstPass | homeworks/homework-1/problem-1/code/src/options.c:159-165 | the first pass finds the first `-config` or `--config` that has a value after it |
| OptionParsing.StartsWithDashes | homeworks/homework-1/problem-1/code/src/options.c:102 | `strncmp(line, "---", 3) == 0` exactly when the text starts with three dashes |
| OptionParsing.StrChr | homeworks/homework-1/problem-1/code/src/options.c:104-105 | finds the first colon before the NUL, or reports none |
| OptionParsing.SplitAt | homeworks/homework-1/problem-1/code/src/options.c:106-109 | cutting at the colon gives the key trimmed in place and, copied after that trim, the trimmed and unquoted value |
| MatrixKernel.DotZero | docs/02-Getting-started-with-profiling/matrix_multiplication.c:20 | a dot product whose row of A is zero is zero |
| MatrixKernel.MultiplyIJK | homeworks/homework-1/problem-2/code/matrix_multiplication.c:20-25 | every `C[i, j]` in the block gains the dot product of row `i` and column `j`, and nothing else changes |
| MatrixKernel.MultiplyIKJ | homeworks/homework-1/problem-2/code/matrix_multiplication.c:26-31 | the same result in the i-k-j order |
| MatrixKernel.AddRowTerm | homeworks/homework-1/problem-2/code/matrix_multiplication.c:29-30 | the inner `j` loop adds `A[i, k] * B[k, j]` to every cell of row `i` and nothing else |
| MatrixKernel.MultiplyJIK | homeworks/homework-1/problem-2/code/matrix_multiplication.c:32-37 | the same result in the j-i-k order |
| MatrixKernel.OrdersAgree | homeworks/homework-1/problem-2/code/matrix_multiplication.c:17-39 | the three loop orders leave identical results from identical starting grids |
| MatrixKernel.ParseOrderInverse | homeworks/homework-1/problem-2/code/matrix_multiplication.c:149-152 | the order names and order numbers are inverse to each other |
| MatrixKernel.FillRandom | homeworks/homework-1/problem-2/code/matrix_multiplication.c:170-175 | each entry of A and B is the next random draw modulo `m`, C is zero, and every cell outside the `n x n` block of A, B and C is unchanged |
| ProfilingDemo.Multiply | docs/02-Getting-started-with-profiling/matrix_multiplication.c:13-38 | a known order adds the product into C, and an unknown one fails with status 1 and leaves C unchanged |
| ProfilingDemo.Step | docs/02-Getting-started-with-profiling/matrix_multiplication.c:83-95 | one byte commits at most one value and never changes the values already committed |
| ProfilingDemo.ScanAppend | docs/02-Getting-started-with-profiling/matrix_multiplication.c:81-97 | scanning two pieces in turn is scanning their concatenation, so chunk boundaries do not matter |
| ProfilingDemo.ScanKeeps | docs/02-Getting-started-with-profiling/matrix_multiplication.c:88-92 | values beyond `2 * n * n` are dropped, and committed values stay |
| ProfilingDemo.TrailingDigitsDropped | docs/02-Getting-started-with-profiling/matrix_multiplication.c:83-86 | a number with no terminator after it is never stored |
| ProfilingDemo.Cell | docs/02-Getting-started-with-profiling/matrix_multiplication.c:89 | a flat index into a MAXN-by-MAXN grid is one row and column |
| ProfilingDemo.Slot | docs/02-Getting-started-with-profiling/matrix_multiplication.c:89 | a row and column give one flat index, inverse to `Cell` |
| ProfilingDemo.ReadMatrix | docs/02-Getting-started-with-profiling/matrix_multiplication.c:68-101 | the first `n * n` scanned values fill `A` from flat index 0 and the next `n * n` fill `B`; every other cell keeps its old value |
| ProfilingDemo.ReadChunk | docs/02-Getting-started-with-profiling/matrix_multiplication.c:82-96 | one chunk advances the scanner state over its bytes |
| ProfilingDemo.ReadByte | docs/02-Getting-started-with-profiling/matrix_multiplication.c:83-95 | one byte advances the scanner state as the reference step |
| ProfilingDemo.Store | docs/02-Getting-started-with-profiling/matrix_multiplication.c:88-91 | a stored value lands at `count % (n * n)` of the current grid |
| ProfilingDemo.SmallBlockShifted | docs/02-Getting-started-with-profiling/matrix_multiplication.c:89 | for `1 < n < MAXN` the values are stored with row stride MAXN, not `n`, so `A[0, n]` holds value `n` rather than `A[1, 0]` |
| ProfilingDemo.CreateAndWriteMatrices | docs/02-Getting-started-with-profiling/matrix_multiplication.c:40-66 | the file text is two blocks of `n` lines, each `n` copies of `0 ` and a newline |
| ProfilingDemo.SeparatorsRepeat | docs/02-Getting-started-with-profiling/matrix_multiplication.c:48-62 | repeating a text repeats its terminators |
| ProfilingDemo.LineSeparators | docs/02-Getting-started-with-profiling/matrix_multiplication.c:50-60 | each written line has `n + 1` terminators and holds only `0`, space and newline |
| ProfilingDemo.ScanZeroText | docs/02-Getting-started-with-profiling/matrix_multiplication.c:83-95 | scanning zeros, spaces and newlines commits zeros, one per terminator up to the cap |
| ProfilingDemo.ScanOfMatrixText | docs/02-Getting-started-with-profiling/matrix_multiplication.c:40-101 | reading back the file written fills all `2 * n * n` slots with zeros |
| ProfilingDemo.IoModeLoad | docs/02-Getting-started-with-profiling/matrix_multiplication.c:133-137 | after the write and the read-back, A and B are zero on the whole `ION` block |
| ProfilingDemo.IoMode | docs/02-Getting-started-with-profiling/matrix_multiplication.c:133-140 | after the read-back the I/O-mode `multiply` succeeds and leaves every cell of C as it was |
| ProfilingDemo.MatrixTextSeparators | docs/02-Getting-started-with-profiling/matrix_multiplication.c:48-61 | the written file has one blank or newline per value plus one newline per line |
| ProfilingDemo.ParseArgs | docs/02-Getting-started-with-profiling/matrix_multiplication.c:109-119 | an accepted command line yields a known order |
| ProfilingDemo.ParseArgsSpec | docs/02-Getting-started-with-profiling/matrix_multiplication.c:104-119 | `main` rejects exactly an unknown order or mode; missing arguments default to ijk and cpu; the order taken is the one named |
| ProfilingDemo.CpuMode | docs/02-Getting-started-with-profiling/matrix_multiplication.c:123-140 | the entries of A and B are the draws modulo 10, so below 10; C is the exact product; nothing outside the `CPUN` block of A, B or C changes |
| HomeworkMatrix.Multiply | homeworks/homework-1/problem-2/code/matrix_multiplication.c:17-39 | a known order adds the product into C; an unknown order leaves C unchanged, since there is no default branch |
| HomeworkMatrix.Head | homeworks/homework-1/problem-2/code/matrix_multiplication.c:58 | row `i` starts at `i * n`, inside the `n * n` block |
| HomeworkMatrix.ProcessSpec | homeworks/homework-1/problem-2/code/matrix_multiplication.c:48-61 | the first cell of each processed row becomes 1 when the row sum is even and keeps its value otherwise; every other cell is unchanged |
| HomeworkMatrix.ProcessRest | homeworks/homework-1/problem-2/code/matrix_multiplication.c:50-60 | rows not yet processed are untouched |
| HomeworkMatrix.RowLocal | homeworks/homework-1/problem-2/code/matrix_multiplication.c:51-59 | each row's outcome depends only on that row's own cells |
| HomeworkMatrix.ProcessHead | homeworks/homework-1/problem-2/code/matrix_multiplication.c:57-59 | the first cell of row `i` after the pass is 1 exactly for an even row sum |
| HomeworkMatrix.ProcessMatrixData | homeworks/homework-1/problem-2/code/matrix_multiplication.c:48-61 | the array becomes the reference row pass of its old contents |
| HomeworkMatrix.DigitRun | homeworks/homework-1/problem-2/code/matrix_multiplication.c:158 | `atoi` reads the longest prefix of digits |
| HomeworkMatrix.ValueOfDecimal | homeworks/homework-1/problem-2/code/matrix_multiplication.c:158 | the decimal digits of `k` have the value `k` |
| HomeworkMatrix.AtoiDecimal | homeworks/homework-1/problem-2/code/matrix_multiplication.c:158 | `atoi` of a decimal numeral is its number |
| HomeworkMatrix.AtoiStopsAtNonDigit | homeworks/homework-1/problem-2/code/matrix_multiplication.c:158 | `atoi` ignores what follows the digits |
| HomeworkMatrix.ParseArgs | homeworks/homework-1/problem-2/code/matrix_multiplication.c:143-162 | an accepted command line yields a known order and a size in `1..MAXN` |
| HomeworkMatrix.ParseArgsSpec | homeworks/homework-1/problem-2/code/matrix_multiplication.c:143-162 | the arguments are accepted exactly with four or more entries, a known order and mode, and `atoi` of the size in `1..5000`; then they are what was typed |
| HomeworkMatrix.SizeAccepted | homeworks/homework-1/problem-2/code/matrix_multiplication.c:158-162 | a size typed in decimal is accepted exactly when it lies in `1..5000` |
| HomeworkMatrix.CpuMode | homeworks/homework-1/problem-2/code/matrix_multiplication.c:167-178 | the entries of A and B are the draws modulo 100, so below 100; C is the exact product; nothing outside the `n x n` block of A, B or C changes |

## Left out

- The `double` variants in `sort.c` and `io.c`: floating point is out of scope. The integer variants have the same shape.
- `main.c` and the Python profiling and plotting scripts: they are drivers around the core, not part of it.
- `usage`, `emit_line` and every `fprintf` or `printf` diagnostic: these are output only.
- The `err` buffer of `load_config_yaml` and its warning messages: these are output only. The values they report on leave the settings unchanged, which is modelled.
- `io_simulate` in the homework program: it is built from `open`, `read`, `write`, `lseek` and `access` on a scratch file. Its only computation is `process_matrix_data`, which is modelled.
- `fopen`, `fclose`, `open`, `close` and their failures: the open files are parameters. A config file that does not open is the path missing from `fs`. The open and write failures of the demo's file functions, which `exit(1)`, are not modelled.
- `read` errors in `read_matrix`: the code only calls `perror`. The model scans the chunks that arrived.
- Lines longer than the 4096-byte `fgets` buffer: the model takes the lines as `fgets` returns them, so a long line is already split into its pieces.
- `malloc` failure, `free`, `free_int_list` and the freeing of partial lists on a failed read: memory is unbounded in the model.
- `mergesort_int`: its `exit(1)` when `malloc` fails is not modelled.
- `dup_cstr`: it is modelled as a copy of the string, and a `NULL` from a failed allocation is not modelled.
- Command-line arguments are taken to be NUL-free strings.
- `srand(time(NULL))` and `rand()`: the draws are the parameter `rnd`, and only their values modulo 10 or 100 matter.
- MatrixKernel.MultiplyIJK: the arithmetic is on unbounded integers, and C `int` overflow in `C[i][j] += A[i][k] * B[k][j]` (undefined behaviour) is not modelled. The program's entries are below 100, so with `n <= 5000` every sum stays below 2^31.
- MatrixKernel.MultiplyIKJ: C `int` overflow is not modelled, as for MultiplyIJK.
- MatrixKernel.MultiplyJIK: C `int` overflow is not modelled, as for MultiplyIJK.
- ProfilingDemo.Step: `val * 10 + digit`, and `sign * val`, are on unbounded integers. The `int` overflow of very long digit runs is not modelled.
- HomeworkMatrix.ParseArgsSpec: `atoi` is modelled on an optional sign after leading white space, then decimal digits. Its undefined result on overflow is not modelled. A value too large for `int` is taken as its exact number, which is then rejected as above 5000.
- HomeworkMatrix.ProcessMatrixData: `row_sum` is a `long long` and `i * n + j` an `int`. Both fit for `n <= 5000` and `int` entries, and the model uses unbounded integers.
- IntIo.ReadIntArrayFromFile: the checksum is the exact sum of the stored values. The `int64_t` accumulator cannot overflow for fewer than 2^32 values, and beyond that its overflow is not modelled.
- IntIo.ReadIntListFromFile: the checksum is modelled as in ReadIntArrayFromFile. The nodes of a failed read are not shown to be freed.
- `(size_t)n` in `read_size_from_file` is the identity on a 64-bit target, and the model takes it so.
- ProfilingDemo.IoMode: it states that C is unchanged, not that C is zero; that it is zero relies on `C` being a static array, zero at program start, which the model does not derive.
- ProfilingDemo.Multiply: the fatal `exit(1)` of the default branch is modelled as status 1 with `C` unchanged.
