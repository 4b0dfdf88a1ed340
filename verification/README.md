# Verified models of six small programs

The repository is a collection of unrelated exercises. Each exercise with
real logic is modelled here as its own Dafny module. Each module states and
proves what the program promises.

- **TreeDiff** (`tree_diff.dfy`) models the change monitor's tree differ
  `Monitor.find_differences`. It compares two parsed HTML trees position by
  position. It returns a set of change records. Each record holds a
  position, the parent pair, a label and the node pair. bs4's
  `BeautifulSoup`, `Tag` and `NavigableString` nodes are one datatype. The
  string kinds are `NavigableString` and the ten subclasses bs4's HTML
  builders create: `Script`, `Stylesheet`, `TemplateString`,
  `RubyTextString`, `RubyParenthesisString`, `Comment`, `CData`,
  `ProcessingInstruction`, `Declaration` and `Doctype`. Python's `None` is
  `Option.None`. The presence tests use Python truthiness, so an empty
  string counts as absent.
- **ChangeMonitor** (`change_monitor.dfy`) models one monitoring cycle of
  `monitor_changes` without threads or I/O. Completed fetches are stored
  page by page. Each page is classified as unavailable, available again, or
  diffed against the previous tree. Then the two buffers are swapped.
- **Primes** (`primes.dfy`, with `divisibility.dfy`) models the four prime
  listings. The Sieve of Eratosthenes runs over an array with loop
  invariants. The three functional variants are proved to list the same
  primes.
- **PerfectNumbers** (`perfect_numbers.dfy`) models the three perfect-number
  listings. They sum divisors only up to the square root. The optimised sum
  is proved equal to the sum of all proper divisors.
- **SinglyLinked** (`singly_linked.dfy`) and **DoublyLinked**
  (`doubly_linked.dfy`) model `Linked<T>` and `Lista<T>`, the two
  implementations of `IListCollection<T>`. Their quirks are kept.
  `Linked.Insert` overwrites a value and still counts one more element.
  Removing `Linked`'s head node sets its empty flag. `Lista` is modelled
  down to its `next`/`prev` pointers. A heap of nodes is threaded by a spine
  that names the linked nodes.
- **MergeSort** (`merge_sort.dfy`) models `ConcurrentSort`. The two halves
  of a range are sorted on disjoint cells and joined before the merge, so
  the model runs them one after the other.
- **FilmBrowser** (`film_browser.dfy`) models the film catalogue's rules.
  These are `Film`'s year check and the `Handler`'s add, edit, remove and
  find. An in-memory sequence of films stands in for the database.

`wrappers.dfy` holds `Option` and `Result`. `lists.dfy` holds Python's
`range`, `filter`, `all`, `sum`, `reduce` and `', '.join` over sequences.

Modelling choices:

- Every state-changing operation returns the new state as a value. The
  prime sieve is the one array of the model. `ConcurrentSort` also sorts
  its array in place, and the model has it as a sequence that every step
  returns updated (see below).
- A dereference of C#'s `null` is the `Fault` value `NullReference`. This
  happens in `Linked<T>`, whose `len` can exceed the nodes it reaches.
- `default(T)` is a parameter, because Dafny has no default value for a
  type parameter. So is the formatting of one element in `ToString`.
- `int(i ** 0.5)` is the exact integer square root `Isqrt`.
- Java's `compareTo` is an integer key: `a.compareTo(b) < 0` holds exactly
  when `key(a) < key(b)`. The array of `ConcurrentSort` is a sequence that
  every step returns updated.
- A Python set merges records that compare equal. bs4 compares a string as
  its text, and a tag by name, attributes and children, never by position.
  It hashes a tag by its markup. So each record holds its nodes as `Key`s:
  positions are forgotten, a string held directly is just its text, and
  inside a tag only the string kinds that print delimiters stay apart.
  Records the program's set holds once are then one record of the model's
  set.
- The fetch results of a cycle are a parameter, listed in completion order.
  The thread pool that produces them is not modelled.

Points where the code's behaviour is easy to misread:

- The code tests presence by truthiness. An empty text node therefore
  counts as missing. An empty text node paired with a missing one is an
  `'element type'` change. Texts are compared only after these tests.
- The differ handles `None` on either side at every level, including the
  two roots, and so does the model.
- The position of a change comes from the current node, and text nodes have
  none. So swapping the two trees does not simply turn additions into
  removals: their positions differ. The model proves only that "no
  changes" is symmetric (`NoChangesSymmetric`).
- The monitor keeps two dictionaries of parsed pages and swaps them after
  each cycle. It never clears the spare one. The model keeps the swap and
  proves that the stale entries are never observed
  (`SpareBufferNotObserved`).
- The code reports "Page unavailable." on every cycle a fetch fails. It does
  not stay silent after the first failure.

## Model

| member | source | states |
|---|---|---|
| TreeDiff.FindDifferences | multiwebsite-change-monitor/website_change_monitor.py:19-96 | Every record carries one of the seven labels the differ can produce. Every record is about the compared pair or about a strictly smaller pair inside it. Records about the pair itself carry the pair's parents and the position of the current node. Nodes are held as Python's set compares them (`Key`), so records the set merges are one record. |
| TreeDiff.KeyEquality | multiwebsite-change-monitor/website_change_monitor.py:44-49 | Two strings held in a record are the same iff their texts agree, whatever their kinds. Two tags that differ only in position are the same. Tags that are the same have the same type, name and attributes. |
| TreeDiff.Pad | multiwebsite-change-monitor/website_change_monitor.py:76-81 | The shorter child list is padded with `None` up to the longer length. The children keep their places. |
| TreeDiff.RemovedPair | multiwebsite-change-monitor/website_change_monitor.py:47-52 | A present old node against an absent new one gives exactly one `'element removed'` record at `(None, None)`, with no recursion. |
| TreeDiff.AddedPair | multiwebsite-change-monitor/website_change_monitor.py:54-55 | An absent old node against a present new one gives exactly one `'element added'` record. |
| TreeDiff.TypeChangedPair | multiwebsite-change-monitor/website_change_monitor.py:57-58 | Nodes of different Python types give exactly one `'element type'` record. Their children are never compared. |
| TreeDiff.TextPair | multiwebsite-change-monitor/website_change_monitor.py:68-70 | Two strings of one kind give one `'text'` record iff they differ, else nothing. The record holds the two texts, whatever their kind. A string that becomes empty, or stops being empty, counts as removed or added. |
| TreeDiff.TagLabels | multiwebsite-change-monitor/website_change_monitor.py:83-89 | The tag label lists `type` before `attributes`, joined by `', '`. The label is empty exactly when name and attributes both agree. |
| TreeDiff.OwnRecordOfElementPair | multiwebsite-change-monitor/website_change_monitor.py:72-89 | A tag or document pair contributes at most one record about itself, the tag record. |
| TreeDiff.ElementPairMembers | multiwebsite-change-monitor/website_change_monitor.py:72-94 | A record of a tag or document pair is either its own tag record or a record of the padded children at one position, compared with the pair as parents. Both directions hold. |
| TreeDiff.ChildDifferencesMembers | multiwebsite-change-monitor/website_change_monitor.py:91-92 | The children's records are exactly the union over the padded positions of each position's records. |
| TreeDiff.NoChangesIffSameContent | multiwebsite-change-monitor/website_change_monitor.py:51-96 | The differ reports nothing iff the two trees are equal once source positions are forgotten. |
| TreeDiff.IdenticalCopyHasNoChanges | multiwebsite-change-monitor/website_change_monitor.py:51-96 | Diffing a tree against an equal copy gives the empty set. |
| TreeDiff.NoChangesSymmetric | multiwebsite-change-monitor/website_change_monitor.py:51-96 | Whether any change is reported does not depend on which tree is the old one. |
| TreeDiff.TrailingChildRemoved | multiwebsite-change-monitor/website_change_monitor.py:76-92 | One extra present trailing child on the old side, with all else equal up to positions, gives exactly one removal record for that child and none for its subtree. |
| TreeDiff.AttributesOnlyChanged | multiwebsite-change-monitor/website_change_monitor.py:83-92 | Two tags with equal names and children but different attributes give exactly one `'tag attributes'` record. |
| TreeDiff.HelloWorldScenario | multiwebsite-change-monitor/website_change_monitor.py:51-96 | `<div><p>Hello</p></div>` against `<div><p>World</p></div>` gives one `'text'` record for the string inside `<p>`. Its parents are the two `p` tags without positions. |
| TreeDiff.TrailingSpanScenario | multiwebsite-change-monitor/website_change_monitor.py:76-92 | Children `[p, span]` against `[p]` give one removal record, for the `span`. |
| TreeDiff.ClassAttributeScenario | multiwebsite-change-monitor/website_change_monitor.py:83-92 | `class="a"` against `class="b"` on an otherwise equal `<div>` gives one `'tag attributes'` record. There are no child records. |
| TreeDiff.EqualTextChangesCollapse | multiwebsite-change-monitor/website_change_monitor.py:44-96 | `<ul><li>a</li><li>a</li></ul>` against `<ul><li>b</li><li>b</li></ul>`, with the `li` tags at columns 4 and 14, gives exactly one record. The two text changes have equal parents up to position and no position of their own, so Python's set holds them once. |
| ChangeMonitor.Classify | multiwebsite-change-monitor/website_change_monitor.py:201-232 | A failed fetch gives "unavailable". A page that was `None` gives "now available". The differ runs only when both trees are present, on (previous, current). |
| ChangeMonitor.UpdateSoups | multiwebsite-change-monitor/website_change_monitor.py:165-182 | After the fetches, the dictionary holds the old pages plus every page that completed a task. |
| ChangeMonitor.LastResultStored | multiwebsite-change-monitor/website_change_monitor.py:170-181 | A page holds the result of its last completed task, `None` when the task raised. |
| ChangeMonitor.OtherPagesKept | multiwebsite-change-monitor/website_change_monitor.py:165-182 | A page that completed no task keeps its entry. |
| ChangeMonitor.UpdateOrderIrrelevant | multiwebsite-change-monitor/website_change_monitor.py:169-181 | With one task per page, the stored trees do not depend on completion order. |
| ChangeMonitor.Start | multiwebsite-change-monitor/website_change_monitor.py:185-191 | The initial fetch fills `soups` with exactly the fetched pages and leaves `new_soups` empty. |
| ChangeMonitor.Cycle | multiwebsite-change-monitor/website_change_monitor.py:196-259 | A cycle reports once per completed fetch. Afterwards the previous trees are the spare buffer (the swap), and every page again has an entry. |
| ChangeMonitor.CyclePerPage | multiwebsite-change-monitor/website_change_monitor.py:174-232 | Per page: the fetched tree or `None` is stored for that page only. The report is "unavailable" iff the fetch failed, and "now available" iff it succeeded after a failure. It is a diff of (previous, current) iff both exist. |
| ChangeMonitor.SpareBufferNotObserved | multiwebsite-change-monitor/website_change_monitor.py:254-259 | Whatever stale contents the swapped-in spare buffer holds, the reports and the stored trees of monitored pages are the same. |
| ChangeMonitor.RecoveryScenario | multiwebsite-change-monitor/website_change_monitor.py:188-232 | A fetch fails, then succeeds, then returns the same tree. The cycles report "now available" with no diff, then an empty set of differences. |
| Primes.PrimesImperative | python-exercises/multiple-paradigms/ex1_primes.py:6-39 | The sieve returns exactly the primes in [2, n] in increasing order, and `[]` for n < 2. |
| Primes.SieveRound | python-exercises/multiple-paradigms/ex1_primes.py:30-37 | When the outer loop reaches odd i, `isprime[i]` holds iff i is prime. Afterwards cell j is set iff j ≥ 2 and no d in [2, i + 2) below j divides j. |
| Primes.ClearEvens | python-exercises/multiple-paradigms/ex1_primes.py:19-26 | After the first phase, a cell is set iff its index is 2 or odd and at least 3. |
| Primes.ClearOddMultiples | python-exercises/multiple-paradigms/ex1_primes.py:34-37 | Sieving with odd i clears exactly the odd multiples 3i, 5i, … within the array. Every other cell keeps its value. |
| Primes.SieveStep | python-exercises/multiple-paradigms/ex1_primes.py:29-37 | Sieving with a prime removes exactly its odd multiples from 3i. Sieving with a composite removes nothing new. |
| Primes.PrimesUpToMembers | python-exercises/multiple-paradigms/ex1_primes.py:6-11 | The reference listing holds x iff x is a prime in [2, n]. |
| Primes.TrialDivisionKeeps | python-exercises/multiple-paradigms/ex1_primes.py:42-62 | `primes_lcomp` and `primes_functional1` keep i iff no k in [2, ⌊√i⌋] divides i. |
| Primes.NoKeptDivisorIffPrime | python-exercises/multiple-paradigms/ex1_primes.py:64-78 | A number is prime iff no prime kept before it divides it. This is the fold's test. |
| Primes.LcompIsReference | python-exercises/multiple-paradigms/ex1_primes.py:42-51 | `primes_lcomp(n)` is exactly the primes up to n, in order. |
| Primes.Functional1IsReference | python-exercises/multiple-paradigms/ex1_primes.py:53-62 | `primes_functional1(n)` is exactly the primes up to n, in order. |
| Primes.Functional2IsReference | python-exercises/multiple-paradigms/ex1_primes.py:64-78 | `primes_functional2(n)` is exactly the primes up to n, in order. |
| Primes.ListingsAgree | python-exercises/multiple-paradigms/ex1_primes.py:81-99 | All four listings return the same strictly increasing list for every n, and `[]` below 2. |
| Divisibility.Isqrt | python-exercises/multiple-paradigms/ex1_primes.py:51 | `int(i ** 0.5)` is the r with r² ≤ i < (r + 1)². |
| Divisibility.PrimeIffNoSmallDivisor | python-exercises/multiple-paradigms/ex1_primes.py:43-51 | A number is prime iff it is at least 2 and has no divisor in [2, ⌊√i⌋]. |
| PerfectNumbers.OptimisedSum | python-exercises/multiple-paradigms/ex2_perfect_numbers.py:35-43 | The sum starts at 1. For each divisor k in [2, ⌊√i⌋] it adds k, and adds i/k only when i/k ≠ k. The result is the optimised divisor sum. |
| PerfectNumbers.OptimisedSumIsProperDivisorSum | python-exercises/multiple-paradigms/ex2_perfect_numbers.py:5-15 | For i ≥ 2 the optimised sum equals the sum of all proper divisors of i. |
| PerfectNumbers.CofactorBounds | python-exercises/multiple-paradigms/ex2_perfect_numbers.py:6-10 | A divisor k with 2 ≤ k ≤ ⌊√i⌋ has its cofactor i/k in [k, i). |
| PerfectNumbers.OneIsTheEdgeCase | python-exercises/multiple-paradigms/ex2_perfect_numbers.py:12-19 | The optimised test would accept 1, which is not perfect. That is why the candidates start at 2. |
| PerfectNumbers.PerfectImperative | python-exercises/multiple-paradigms/ex2_perfect_numbers.py:24-49 | `perfect_imperative(n)` lists exactly the perfect numbers up to n, ascending. |
| PerfectNumbers.FromTwoIsReference | python-exercises/multiple-paradigms/ex2_perfect_numbers.py:17-19 | Testing only the candidates 2..n loses no perfect number. |
| PerfectNumbers.PerfectsUpToMeans | python-exercises/multiple-paradigms/ex2_perfect_numbers.py:34-47 | The result holds i iff i is perfect and in range. It never holds 1, and it is strictly increasing. |
| PerfectNumbers.FoldedIsOptimised | python-exercises/multiple-paradigms/ex2_perfect_numbers.py:63-79 | The generator summed term by term equals the sum of the list of contributions. |
| PerfectNumbers.ListingsAgree | python-exercises/multiple-paradigms/ex2_perfect_numbers.py:52-79 | `perfect_lcomp` and `perfect_functional` return exactly the perfect numbers up to n, as `perfect_imperative` does. |
| PerfectNumbers.SixIsPerfect | python-exercises/multiple-paradigms/ex2_perfect_numbers.py:24-49 | 6 is perfect and is listed. |
| PerfectNumbers.TwentyEightIsPerfect | python-exercises/multiple-paradigms/ex2_perfect_numbers.py:35-43 | The optimised sum of 28 is 1 + (2 + 14) + (4 + 7) = 28. |
| SinglyLinked.New | oop/linked-lists/Linked.cs:16-18 | A new list has no nodes, the empty flag set and length 0. |
| SinglyLinked.Add | oop/linked-lists/Linked.cs:27-39 | `Add` appends at the tail and increments `Length`, clearing the empty flag. While the flag is set, it starts a new one-node chain and drops what the old head held. |
| SinglyLinked.AppendAtTail | oop/linked-lists/Linked.cs:33-35 | The tail walk followed by the link appends the value. |
| SinglyLinked.Insert | oop/linked-lists/Linked.cs:41-55 | In range, `Insert` overwrites position i without shifting and still increments `Length`. Out of range nothing changes. Past the reachable nodes the walk hits `null`. |
| SinglyLinked.Remove | oop/linked-lists/Linked.cs:57-79 | `Remove` unlinks the first node equal to v and decrements `Length`, setting the empty flag if that node was the head. With the flag set, or no match, nothing changes. |
| SinglyLinked.FirstMatch | oop/linked-lists/Linked.cs:60-77 | The search finds the first position holding v, or none iff v is absent. |
| SinglyLinked.RemoveAt | oop/linked-lists/Linked.cs:81-105 | `RemoveAt` unlinks node i and decrements `Length`, setting the empty flag on a head removal. With the flag set, or i out of range, nothing changes. |
| SinglyLinked.UnlinkAt | oop/linked-lists/Linked.cs:86-101 | The walk with a trailing `prev` unlinks node i ≥ 1, or faults past the last node. |
| SinglyLinked.Get | oop/linked-lists/Linked.cs:107-121 | In range, `Get(i)` returns the i-th value from the head. Out of range it returns `default(T)`. |
| SinglyLinked.ValueAt | oop/linked-lists/Linked.cs:111-117 | The walk reads the value at i, or faults on `null`. |
| SinglyLinked.OverwriteAt | oop/linked-lists/Linked.cs:45-51 | The walk overwrites the value at i, or faults on `null`. |
| SinglyLinked.AddAllFromNew | oop/linked-lists/Linked.cs:27-39 | A list built by `Add` alone holds the added values in order, with `Length` their count. |
| SinglyLinked.GetAfterAdds | oop/linked-lists/Linked.cs:107-121 | On a list built by `Add` alone, `Get` returns the added values, and `IsEmpty` agrees with `Length == 0`. |
| SinglyLinked.HeadRemovalScenario | oop/linked-lists/Linked.cs:94-97 | After `Add(a)`, `Add(b)`, `RemoveAt(0)`, `IsEmpty` holds though `b` is still linked. A further `Add(c)` drops `b`, so `Get(1)` faults. |
| SinglyLinked.RemoveHeadValueScenario | oop/linked-lists/Linked.cs:57-79 | Removing the head's value sets the empty flag. After that, `Remove` finds nothing. |
| SinglyLinked.InsertScenario | oop/linked-lists/Linked.cs:41-55 | `Insert(0, b)` on `[a]` gives `[b]` with `Length` 2, and `Get(1)` faults. |
| DoublyLinked.New | oop/linked-lists/DoublyLinked.cs:35-45 | The constructor gives a valid list with no elements, `IsEmpty` true. |
| DoublyLinked.LinkInvariant | oop/linked-lists/DoublyLinked.cs:77-91 | For every linked node, `next.prev` and `prev.next` lead back to it. `back` has no `prev` and `front` has no `next`. |
| DoublyLinked.EmptyIffZeroLength | oop/linked-lists/DoublyLinked.cs:39-53 | In every valid state, `IsEmpty()` holds iff `Length == 0`. |
| DoublyLinked.Add | oop/linked-lists/DoublyLinked.cs:77-91 | `Add` makes the value the last element in enumeration order and increments `Length`. `IsEmpty()` is false after it, and the link invariant is preserved. |
| DoublyLinked.PopFront | oop/linked-lists/DoublyLinked.cs:103-117 | `pop_front` drops the last element in enumeration order and keeps the links valid. On an empty list it does nothing. |
| DoublyLinked.PopBack | oop/linked-lists/DoublyLinked.cs:119-133 | `pop_back` drops the first element and keeps the links valid. On an empty list it does nothing. |
| DoublyLinked.Unlink | oop/linked-lists/DoublyLinked.cs:143-146 | Unlinking a middle node deletes exactly that element and keeps the links valid. |
| DoublyLinked.DeleteNode | oop/linked-lists/DoublyLinked.cs:164-172 | Deleting a node through `pop_back`, `pop_front` or unlinking removes its element and decrements `Length`. |
| DoublyLinked.Reset | oop/linked-lists/DoublyLinked.cs:203-206 | `Reset` puts both cursors at `back`. |
| DoublyLinked.MoveNext | oop/linked-lists/DoublyLinked.cs:192-201 | `MoveNext` moves the cursor to `next_curr` and reports whether it reached a node. From a linked node it prepares that node's successor. |
| DoublyLinked.Current | oop/linked-lists/DoublyLinked.cs:189 | `Current` is the value under the cursor. It faults when no node is there. |
| DoublyLinked.Seek | oop/linked-lists/DoublyLinked.cs:61-62 | The indexer's walk leaves the cursor on node `index` from `back`. |
| DoublyLinked.GetAt | oop/linked-lists/DoublyLinked.cs:55-64 | The indexer's getter returns the element at that position in range and leaves the cursor on its node. Out of range it returns `default(T)` and changes nothing. |
| DoublyLinked.SetAt | oop/linked-lists/DoublyLinked.cs:66-75 | The indexer's setter overwrites only that position in range, with `Length` unchanged. Out of range nothing changes. |
| DoublyLinked.Overwrite | oop/linked-lists/DoublyLinked.cs:73 | Writing a node's value changes exactly that element. |
| DoublyLinked.Insert | oop/linked-lists/DoublyLinked.cs:93-101 | `Insert` overwrites only that position in range, with `Length` unchanged. Out of range nothing changes. |
| DoublyLinked.Remove | oop/linked-lists/DoublyLinked.cs:135-154 | `Remove` deletes the first occurrence in enumeration order, keeps the others in order and decrements `Length`. With no match the elements are unchanged. |
| DoublyLinked.RemoveAt | oop/linked-lists/DoublyLinked.cs:156-173 | In range, `RemoveAt` deletes element i, keeps the others in order and decrements `Length`. Out of range nothing changes. |
| DoublyLinked.Get | oop/linked-lists/DoublyLinked.cs:175-177 | `Get` is the indexer's getter. |
| DoublyLinked.ToString | oop/linked-lists/DoublyLinked.cs:210-223 | `ToString` is "[" + the elements in order separated by ", " + "]", which is "[]" when empty. It leaves both cursors at `null`. |
| MergeSort.Mid | oop/concurrent-sort/ConcurrentSort.java:53 | When left < right, mid = left + (right − left)/2 satisfies left ≤ mid < right. |
| MergeSort.Merge | oop/concurrent-sort/ConcurrentSort.java:31-45 | The merge of two sequences has their combined length. |
| MergeSort.MergePermutation | oop/concurrent-sort/ConcurrentSort.java:24-50 | The merge is a permutation of its two inputs. |
| MergeSort.MergeSorted | oop/concurrent-sort/ConcurrentSort.java:24-50 | Merging two sorted inputs gives a sorted result. |
| MergeSort.MergeTakesRightOnTie | oop/concurrent-sort/ConcurrentSort.java:31-35 | On a tie the right-half element is placed first. |
| MergeSort.TiesSwap | oop/concurrent-sort/ConcurrentSort.java:31-35 | Two elements with equal keys come out in the opposite order: the sort is not stable. |
| MergeSort.SortRange | oop/concurrent-sort/ConcurrentSort.java:52-71 | Sorting a range gives one element per cell of the range. |
| MergeSort.SortRangeSorted | oop/concurrent-sort/ConcurrentSort.java:52-71 | The sorted range is ascending. |
| MergeSort.SortRangePermutation | oop/concurrent-sort/ConcurrentSort.java:52-71 | The sorted range is a permutation of the cells of the range. |
| MergeSort.SortRangeLocal | oop/concurrent-sort/ConcurrentSort.java:52-71 | Sorting a range reads only the cells in that range. |
| MergeSort.MergeSortSorts | oop/concurrent-sort/ConcurrentSort.java:4-11 | The whole-array sort is ascending and a permutation of its input. |
| MergeSort.MergeHeads | oop/concurrent-sort/ConcurrentSort.java:31-37 | The first merge loop writes the merge's prefix until one half is used up. |
| MergeSort.DrainLeft | oop/concurrent-sort/ConcurrentSort.java:39-41 | The second loop writes the rest of the left half. |
| MergeSort.DrainRight | oop/concurrent-sort/ConcurrentSort.java:43-45 | The third loop writes the rest of the right half. |
| MergeSort.MergeLoops | oop/concurrent-sort/ConcurrentSort.java:25-45 | The three loops write the merge of [left, mid] and [mid + 1, right] into the cells [left, right] of the copy. |
| MergeSort.MergeRange | oop/concurrent-sort/ConcurrentSort.java:24-50 | `merge` writes only [left, right] and leaves every other cell unchanged. Afterwards [left, right] holds the merge of the two halves. |
| MergeSort.Run | oop/concurrent-sort/ConcurrentSort.java:52-71 | `run` leaves a range with left ≥ right untouched. Otherwise the range ends up sorted as `SortRange` sorts it. Cells outside the range never change. |
| MergeSort.SortHalves | oop/concurrent-sort/ConcurrentSort.java:53-67 | Both halves are sorted and then merged, and only the range changes. |
| MergeSort.ConcurrentSort | oop/concurrent-sort/ConcurrentSort.java:4-11 | `concurrentSort` returns the array sorted ascending, a permutation of the input. The empty array, with right = −1, is left as it is. |
| FilmBrowser.ParseYear | sqlalchemy-gtk-gui/film_browser.py:37-40 | A year is accepted iff it is all digits with value ≤ 2021. Otherwise `InvalidYearException` is raised. An accepted year lies in [0, 2021]. |
| FilmBrowser.YearRoundTrip | sqlalchemy-gtk-gui/film_browser.py:35-40 | Every year 0..2021, written out, is accepted and read back as itself. Every later year is refused. |
| FilmBrowser.YearExamples | sqlalchemy-gtk-gui/film_browser.py:37 | "02021" is 2021. "2022", "" and "19a9" are refused. |
| FilmBrowser.NewFilm | sqlalchemy-gtk-gui/film_browser.py:35-44 | `Film` checks the year first. On success it holds the given strings and the year as an integer. |
| FilmBrowser.FirstMatch | sqlalchemy-gtk-gui/film_browser.py:285-287 | `.first()` gives the first film matching the criteria, or none iff no film matches. |
| FilmBrowser.AddFilm | sqlalchemy-gtk-gui/film_browser.py:262-274 | The checks run in order. An empty field raises `EmptyInfoException`, an exact duplicate raises `FilmAlreadyExistsException`, and then an invalid year raises `InvalidYearException`. On any error the store is unchanged. The add succeeds exactly when all three checks pass, and then appends exactly one film with the given fields and an integer year. |
| FilmBrowser.AddTwiceRejected | sqlalchemy-gtk-gui/film_browser.py:267-270 | Adding the same film again raises `FilmAlreadyExistsException`. |
| FilmBrowser.AddThenFind | sqlalchemy-gtk-gui/film_browser.py:262-274 | A film just added is found by its own fields. |
| FilmBrowser.ApplyChanges | sqlalchemy-gtk-gui/film_browser.py:289-297 | Only the keys present in `changes` are updated. An invalid new year raises before any field is modified. |
| FilmBrowser.EditFilm | sqlalchemy-gtk-gui/film_browser.py:276-299 | An empty identifying field raises `EmptyInfoException`, and no match raises `FilmDoesntExistException`. Next, an invalid year raises `InvalidYearException`. The edit succeeds exactly when all three checks pass, and then only the first matching film is changed, exactly as `changes` says. |
| FilmBrowser.EditWithoutChanges | sqlalchemy-gtk-gui/film_browser.py:289-299 | An edit naming no field leaves the catalogue as it was. |
| FilmBrowser.FindFilms | sqlalchemy-gtk-gui/film_browser.py:315-323 | `find_films` returns exactly the films matching all non-empty criteria, or all films when none are given. |
| FilmBrowser.RemoveFilms | sqlalchemy-gtk-gui/film_browser.py:301-313 | `remove_films` keeps exactly the films failing some non-empty criterion, so with no criteria every film goes. |
| FilmBrowser.FindAndRemovePartition | sqlalchemy-gtk-gui/film_browser.py:301-323 | What `find_films` lists and what `remove_films` keeps together make up the catalogue, each film once. |
| FilmBrowser.RemoveThenFind | sqlalchemy-gtk-gui/film_browser.py:301-323 | After `remove_films`, the same search finds nothing, and removing again changes nothing. |
| FilmBrowser.PrecedenceExample | sqlalchemy-gtk-gui/film_browser.py:262-287 | On one stored film, the errors come in this order: empty field, then duplicate, then invalid year. Editing a film that is not stored fails. |

## Left out

- The thread pool, `as_completed`, the `time.sleep` loop, `requests` and bs4 parsing in the change monitor are not modelled. The fetched trees of a cycle are a parameter, in completion order. `print_changes`, the printed statistics and the "Changed:" comparison are console output and are left out too.
- The monitor's submission of diffs to worker threads is not modelled. Each diff is the pure `FindDifferences` call that the thread would run.
- Java's threads, `start`/`join` and `InterruptedException` in `ConcurrentSort` are left out. Sorting runs sequentially. `Main.java` is a random-input driver.
- `compareTo` is an integer key in the merge sort, so comparisons are a total preorder. A `Comparable` that is not consistent in this way is not modelled.
- The GTK `View` and `Controller`, the SQLAlchemy engine and session, and the module start-up of the film browser are UI and database plumbing. An in-memory sequence stands in for the table.
- `isnumeric` also accepts non-ASCII numeric characters, and `int` rejects some of those with `ValueError`. Only the ASCII digits are modelled.
- SQLite would read a year filter like "1999.0" or " 1999" as a number. The model matches the year column only with strings of ASCII digits.
- `.first()` and `.all()` have no `ORDER BY`. The model takes the stored order, which is SQLite's usual row order.
- TreeDiff.Key: attribute maps have no order, so two tags whose attributes differ only in order are one key. bs4 hashes a tag by its markup, which lists attributes in order, so the program's set would most likely keep both records. Hash collisions between unequal records are not modelled either.
- The model's `Key` of the document root is a `Document`. bs4 would also count a tag named `[document]` with no attributes as equal to it. No parser produces such a tag.
- The benchmarking and printing blocks of both number exercises are left out. `int(i ** 0.5)` is computed in floating point; the model uses the exact integer root, which agrees for the sizes the exercises use.
- `ex1.cs`, the Swing shape editor and the pandas plotting script have no logic to model.
- The `Console.WriteLine` calls on out-of-range paths of both lists are no-ops in the model.
- `Equals` on a `null` element value, and C#'s 32-bit overflow of `len`, are not modelled.
- `Lista`'s `IEnumerable.GetEnumerator` and `Dispose` are left out. The enumerator is `Reset`, `MoveNext` and `Current`, as `ToString`'s `foreach` uses them.
