# San Francisco movies: a verified model of the search tree and its users

This project models the core of a Java program that loads the films shot in
San Francisco from a CSV file and searches them by title and by actor:

- the generic binary search tree `BST` that stores the movies. It covers
  insertion, removal with the in-order successor, lookup, the order queries
  (`first`, `last`, `floor`, `ceiling`, `lower` and `higher`), the three snapshot
  iterators, `toArray`, `equals` and both renderers;
- the CSV line splitter `splitCSVLine`;
- the domain classes `Movie` and `Location`;
- `MovieList`, the tree of movies with `addMovie` and the two keyword searches.

The model follows the structure of the Java code:

- A tree node is a value: the datatype `Tree` in `bst_tree.dfy`.
  - The recursive helpers of `BST.java` become functions on it: `recAdd` is
    `Insert`, `remove(data, node)` and `removeIt` are `Removal` and
    `NodeRemoval`, and the query helpers are `CeilingAt`, `FloorAt` and the
    others.
  - These functions come with lemmas about the keys, elements and node count
    they leave.
- The tree object is the class `BST` in `bst.dfy`.
  - It has the two fields `root` and `size`, and its methods update them.
  - `size` is decremented inside `removeIt`, as in the source.
  - `Valid()` states the search-tree order, and that `size` counts the nodes.
- Elements are ordered through an `Ord` value in `ordering.dfy`. It holds a key
  projection and a three-way comparison, which must be a total order.
  - For movies, the key is the year and the lower-cased title (`Movies.MovieOrder`).
  - Integers serve for the concrete examples.
- Java `null` is `Option` (or a nullable class type `Movie?`).
  - A thrown exception is a `Failure`/`Fail` of the `Exception` datatype in
    `java_lang.dfy`, with the message the code gives it.
  - The string operations the code calls (`trim`, `toLowerCase`, `contains`,
    `compareTo`, `equalsIgnoreCase`, `Character.isWhitespace`) are written out
    there too.
- `Movie` and `Location` are classes whose setters assign fields.
  - `Movie.toString` is a method with its loop over the locations, proved equal
    to the rendering function `Text`.
- `splitCSVLine` is a method with the source's loop and flags.
  - It is proved equal to `Split`, a fold of a one-character `Step` function.
  - The lemmas about `Split` give the entry count, the dropped quotes and a
    round trip for quoted entries.
- `MovieList` holds its `BST` of movies.
  - `addMovie` either inserts or appends a location to the movie already stored
    under the same key, which is the same object `get` returns.
  - Each search is a loop over a fresh in-order snapshot of the tree, adding
    into a new `MovieList`.
  - Each search is proved to return exactly the movies that match, or null.
  - `getMatchingActor` reads the first actor without a null check. It throws
    when a stored movie has none, and the model says exactly when.

## Model

| member | source | states |
|---|---|---|
| BstTree.Insert | BST.java:477-489 | recAdd adds exactly the new element and its key, the node count grows by one, and the result is again a search tree when the key was absent |
| BstTree.KeysIdentifyElements | BST.java:461-489 | in a search tree no two stored elements share a key |
| BstTree.ContainsAt | BST.java:586-599 | contains(data, node) is true exactly when the key of data is stored |
| BstTree.GetAt | BST.java:102-112 | get(data, node) on a stored key returns the stored element with that key |
| BstTree.FirstAt | BST.java:341-348 | first(node) is a stored element and the head of the in-order listing |
| BstTree.LastAt | BST.java:368-373 | last(node) is a stored element and the end of the in-order listing |
| BstTree.FirstIsLeast | BST.java:341-348 | the leftmost element has the least key of the tree |
| BstTree.LastIsGreatest | BST.java:368-373 | the rightmost element has the greatest key of the tree |
| BstTree.CeilingAt | BST.java:252-270 | ceiling(data, node) is null exactly when every key is below the argument, and otherwise the stored element with the least key at or above it |
| BstTree.HigherAt | BST.java:164-180 | findHigher is null exactly when no key is above the argument, and otherwise the element with the least key strictly above it |
| BstTree.LowerAt | BST.java:206-220 | findLower is null exactly when no key is below the argument, and otherwise the element with the greatest key strictly below it |
| BstTree.FloorAt | BST.java:303-323 | floor(data, node) as written: any element it returns is stored and strictly below the argument, and for an absent key it is null exactly when every key is above the argument |
| BstTree.FloorExact | BST.java:303-323 | the corrected floor helper: null exactly when every key is above the argument, otherwise the element with the greatest key at or below it |
| BstTree.FloorAsWrittenMissesLeftOfRightChild | BST.java:307-314 | after adding 50, 70 and 60, floor(65) as written gives 50 while the greatest key at most 65 is 60 |
| BstTree.Removal | BST.java:681-704 | remove(data, node) descends by comparison and hands the matching node to removeIt; the tree it returns keeps a subset of the elements and no more nodes (the exact effect is RemovalKeys, RemovalElements, RemovalCount and RemovalKeepsOrder) |
| BstTree.NodeRemoval | BST.java:712-748 | removeIt's three cases: a leaf vanishes, a single child takes the node's place, two children promote the right subtree's first element; it keeps a subset of the elements and no more nodes (the exact effect is NodeRemovalKeys, NodeRemovalElements, NodeRemovalCount and NodeRemovalKeepsOrder) |
| BstTree.RemovalKeys | BST.java:681-704 | remove(data, node) removes exactly the key of data from the key set |
| BstTree.NodeRemovalKeys | BST.java:712-748 | removeIt removes exactly the key of the node |
| BstTree.RemovalElements | BST.java:681-704 | remove(data, node) keeps exactly the elements whose key differs from data's |
| BstTree.NodeRemovalElements | BST.java:712-748 | removeIt keeps exactly the elements whose key differs from the node's |
| BstTree.RemovalCount | BST.java:681-704 | remove(data, node) drops one node when the key is stored and none otherwise |
| BstTree.NodeRemovalCount | BST.java:712-748 | removeIt drops exactly one node, also in the two-child case where the successor is removed from the right subtree |
| BstTree.RemovalKeepsOrder | BST.java:681-704 | the tree remove(data, node) returns is again a search tree |
| BstTree.NodeRemovalKeepsOrder | BST.java:712-748 | the tree removeIt returns is again a search tree |
| BstTree.TwoChildRemovalPromotesSuccessor | BST.java:729-746 | a node with two children takes the least element of its right subtree, the least key above its own |
| BstTree.AddingSevenBuildsSevenTree | BST.java:477-489 | adding 50, 30, 70, 20, 40, 60, 80 to an empty tree builds the full tree of height three |
| BstTree.RemovingTheRootPromotesSixty | BST.java:729-746 | removing 50 from that tree leaves 60 at the root, with 70 and its right child 80 as the right subtree |
| BstTree.TraversalsListTheNodes | BST.java:878-884 | the pre-, in- and post-order listings each hold every node once: same length as the node count and the same multiset |
| BstTree.InOrderElements | BST.java:1006-1012 | the in-order listing holds exactly the stored elements |
| BstTree.InOrderIsIncreasing | BST.java:1006-1012 | the in-order listing of a search tree has strictly increasing keys |
| BstTree.MyHelper | BST.java:76-81 | myHelper(node, ans) returns a string that starts with the accumulator ans; started from "" it lists the elements in order (MyHelperListsInOrder) |
| BstTree.MyHelperListsInOrder | BST.java:76-81 | myHelper(root, "") is each element's text followed by a newline, in order |
| BstTree.TreeEntries | BST.java:826-850 | the entries preOrderPrint writes for a subtree are odd in number, one per node and one per null child (exactly 2·count+1 by TreeEntriesShape) |
| BstTree.TreeEntriesOfNode | BST.java:826-838 | a node is written as its indentation and text, followed by its left and then its right subtree one level deeper |
| BstTree.TreeEntriesShape | BST.java:826-850 | preOrderPrint writes 2·count+1 entries, one per node and one per null child, each starting with a newline |
| BstTree.IndentationLength | BST.java:828-833 | the prefix at level d is a newline and 3·d further characters: (d−1) three-space blocks and "\|--" |
| BstTree.SameKeysSameListing | BST.java:400-408 | two search trees list the same keys in order exactly when they store the same key set |
| Bst.FillInorder | BST.java:429-435 | fill appends the in-order listing of the subtree to the list given |
| Bst.FillPreorder | BST.java:878-884 | myPreorderIterator appends the pre-order listing to the list given |
| Bst.FillPostorder | BST.java:942-948 | myPostorderIterator appends the post-order listing to the list given |
| Bst.Spaces | BST.java:828-833 | the loop builds the indentation of the given level |
| Bst.PreOrderPrint | BST.java:826-850 | preOrderPrint appends the entries of the subtree to the output |
| Bst.SnapshotIterator.Inorder | BST.java:995-999 | the in-order iterator starts at index 0 over the in-order listing of the tree |
| Bst.SnapshotIterator.Preorder | BST.java:867-871 | the pre-order iterator starts at index 0 over the pre-order listing |
| Bst.SnapshotIterator.Postorder | BST.java:931-935 | the post-order iterator starts at index 0 over the post-order listing |
| Bst.SnapshotIterator.HasNext | BST.java:1020-1025 | hasNext holds exactly when the index is below the snapshot length |
| Bst.SnapshotIterator.Next | BST.java:1031-1033 | next returns the element at the index and advances the index; past the end it throws IndexOutOfBounds with that index and length |
| Bst.SnapshotIterator.Remove | BST.java:1039-1041 | the iterator's remove always throws UnsupportedOperationException("Invalid operation.") |
| Bst.BST.constructor | BST.java:24-27 | a new tree is empty and valid |
| Bst.BST.IsEmpty | BST.java:42-44 | isEmpty holds exactly when no element is stored |
| Bst.BST.Size | BST.java:50-52 | size is the number of stored elements, and 0 exactly when none is stored |
| Bst.BST.Contains | BST.java:565-577 | contains is false for null and otherwise true exactly when the key is stored |
| Bst.BST.Get | BST.java:88-93 | get returns the stored element with the argument's key, or null when there is none or the argument is null |
| Bst.BST.First | BST.java:329-334 | first is null exactly on an empty tree, and otherwise a stored element with the least key |
| Bst.BST.Last | BST.java:355-360 | last is null exactly on an empty tree, and otherwise a stored element with the greatest key |
| Bst.BST.Higher | BST.java:147-154 | higher: null for a null argument, a NullPointerException for any other argument on an empty tree, otherwise null exactly when no key is above the argument and else the element with the least key strictly above it |
| Bst.BST.Lower | BST.java:189-196 | lower: null for a null argument, a NullPointerException for any other argument on an empty tree, otherwise null exactly when no key is below the argument and else the element with the greatest key strictly below it |
| Bst.BST.Ceiling | BST.java:228-244 | ceiling: null on an empty tree or a null argument, the argument itself when its key is stored, otherwise null exactly when every key is below it and else the least stored element above it |
| Bst.BST.Floor | BST.java:278-294 | floor as written: null on an empty tree or a null argument, the argument itself when its key is stored, otherwise null exactly when every key is above it and else some stored element strictly below it |
| Bst.BST.ExactFloor | BST.java:278-294 | floor built on the corrected helper: the same cases, with the element of greatest key below the argument |
| Bst.BST.ToString | BST.java:58-66 | "Empty list." for an empty tree, otherwise each element's text and a newline, in order |
| Bst.BST.ToStringTreeFormat | BST.java:812-816 | the result is the entries of preOrderPrint from level 0, and there are 2·size+1 of them |
| Bst.BST.ToArray | BST.java:415-420 | toArray is a fresh array holding the in-order listing: size elements with strictly increasing keys |
| Bst.BST.Iterator | BST.java:641-643 | iterator() is a fresh in-order iterator over size elements with strictly increasing keys |
| Bst.BST.PreorderIterator | BST.java:625-627 | preorderIterator() is a fresh iterator over the pre-order listing, a rearrangement of the stored elements |
| Bst.BST.PostorderIterator | BST.java:633-635 | postorderIterator() is a fresh iterator over the post-order listing, a rearrangement of the stored elements |
| Bst.BST.Add | BST.java:461-468 | add is false and changes nothing for null or a stored key; otherwise it is true, the tree is recAdd's, the key set and the elements gain exactly the new one, size grows by one, and the tree stays valid |
| Bst.BST.Remove | BST.java:650-671 | remove is false and changes nothing for null or an absent key; otherwise it is true, exactly that key and its element leave, size drops by one, and the tree stays valid |
| Bst.BST.RemoveFrom | BST.java:681-704 | the recursive remove returns the removal tree and decrements size once when the key is stored |
| Bst.BST.RemoveIt | BST.java:712-748 | removeIt returns the tree without the node and decrements size exactly once |
| Bst.BST.FindSmallestSuccessor | BST.java:756-766 | the loop reaches the leftmost element, the least key of the subtree; a null node throws NullPointerException with the message in the source |
| Bst.BST.Clear | BST.java:556-559 | clear leaves an empty tree with size 0 |
| Bst.BST.Clone | BST.java:118-123 | clone is a new tree with the same order, nodes and size at the moment of the call (the nodes the two trees then share are under Left out) |
| Bst.BST.Equals | BST.java:383-409 | equals holds exactly for the same tree, or a tree of the same size listing equal elements in the same order; equivalently, for a tree with the same key set |
| Bst.BST.PairwiseEqual | BST.java:400-408 | the loop over two iterators is true exactly when the two snapshots list the same keys |
| Bst.BST.SameKeysOrSame | BST.java:396-408 | two valid trees list the same keys exactly when they store the same keys, and then they have the same size |
| Bst.BST.ContainsAll | BST.java:605-612 | containsAll holds exactly when every member of the collection is non-null and stored |
| Bst.BST.AddAll | BST.java:549-551 | addAll always throws UnsupportedOperationException |
| Bst.BST.RemoveAll | BST.java:772-774 | removeAll always throws UnsupportedOperationException |
| Bst.BST.RetainAll | BST.java:780-782 | retainAll always throws UnsupportedOperationException |
| SfMovieData.Step | SFMovieData.java:168-203 | one character of the loop: a quote flips insideQuotes, sets insideEntry when it opens and clears it when it closes, and adds nothing to the buffer; outside quotes, whitespace is copied inside an entry and otherwise changes nothing; an unquoted comma closes the buffer as an entry, empties it and ends the entry; inside quotes every other character is copied; any other character is copied and starts an entry; no other character adds an entry |
| SfMovieData.Split | SFMovieData.java:158-213 | the list splitCSVLine returns: [] for an empty line, and the entries the loop closed plus at most one final entry |
| SfMovieData.WhitespaceBetweenEntriesSkipped | SFMovieData.java:184-190 | whitespace read outside quotes and outside an entry leaves the scanner's state as it was |
| SfMovieData.ScanKeepsSpaceInsideEntry | SFMovieData.java:184-198 | whitespace after a character of an entry is kept in it: scanning "a ,b" (any two plain characters and any whitespace) closes the entry "a " untrimmed and leaves "b" in the buffer |
| SfMovieData.SplitCsvLine | SFMovieData.java:158-213 | the loop and the final entry compute Split of the line; an empty line gives an empty list |
| SfMovieData.InsideQuotesIsOddQuoteCount | SFMovieData.java:171-182 | every quote character flips insideQuotes: after a line the scanner is inside quotes exactly when the line holds an odd number of quotes |
| SfMovieData.ScanDropsQuotes | SFMovieData.java:171-182 | no quote character is copied into the buffer or into an entry |
| SfMovieData.SplitDropsQuotes | SFMovieData.java:171-211 | no entry of the result holds a quote character |
| SfMovieData.EntryCount | SFMovieData.java:191-211 | the result has one entry per comma outside quotes, plus one when the final buffer is non-empty |
| SfMovieData.ScanInsideQuotes | SFMovieData.java:184-198 | inside quotes every character other than a quote, whitespace and commas included, is copied to the buffer |
| SfMovieData.SplitJoinQuoted | SFMovieData.java:158-213 | a line of quoted entries joined by commas splits back into those entries, when no entry holds a quote and the last is non-empty with nothing to trim |
| Locations.CheckName | Location.java:54-56 | the name check passes exactly for a non-null name that is not blank after trim, and otherwise throws IllegalArgumentException with the source's message |
| Locations.Location.Create | Location.java:54-58 | Location(ln) fails exactly when the name check fails, and otherwise is a new, valid location (its name not blank) with that name and a null fun fact |
| Locations.Location.CreateWithFunFact | Location.java:66-73 | Location(ln, ff) has the same name check and stores any fun fact, null or empty included, and the new location is valid |
| Locations.Location.SetLocationName | Location.java:27-31 | setLocationName refuses a blank name and keeps the old one; otherwise it stores the new name, so the location is then valid; the fun fact is unchanged |
| Locations.Location.SetFunFact | Location.java:45-47 | setFunFact stores any value and leaves the name, so validity is unchanged |
| Locations.Location.Text | Location.java:79-85 | toString is the name alone when the fun fact is null or empty, otherwise the name followed by " (" + fact + ") " |
| Movies.CheckTitle | Movie.java:64-69 | setTitle's check passes exactly for a non-null, non-empty title (not trimmed), and otherwise throws "Not a valid title." |
| Movies.CheckYear | Movie.java:84-89 | setYear's check passes exactly for 1900..2020, and otherwise throws "Not a valid year." |
| Movies.CheckActor1 | Movie.java:136-142 | setActor1's check passes exactly for a non-null actor, and otherwise throws "Not a valid actor." |
| Movies.Movie.Create | Movie.java:23-27 | Movie(title, year) throws the title error first, then the year error, and otherwise is a new, valid movie (non-empty title, year in 1900..2020) with those values, null crew and no locations |
| Movies.Movie.CreateWithCrew | Movie.java:40-49 | the seven-argument constructor checks title, year and actor1 in that order, and otherwise stores all values with no locations; the new movie is valid |
| Movies.Movie.SetDirector | Movie.java:103-105 | setDirector stores any value |
| Movies.Movie.SetWriter | Movie.java:119-121 | setWriter stores any value |
| Movies.Movie.SetActor1 | Movie.java:136-142 | setActor1 refuses null and keeps the old actor, otherwise stores the new one |
| Movies.Movie.SetActor2 | Movie.java:158-161 | setActor2 stores any value, null included |
| Movies.Movie.SetActor3 | Movie.java:176-178 | setActor3 stores any value, null included |
| Movies.Movie.AddLocation | Movie.java:193-196 | addLocation refuses null; otherwise the location is appended as the last element and the rendering gains exactly its line |
| Movies.Movie.CompareTo | Movie.java:203-207 | different years give year - o.year; equal years order by the lower-cased titles; zero exactly when year and lower-cased title agree |
| Movies.Movie.Equals | Movie.java:215-231 | equals holds exactly for a non-null movie of the same year whose title is equal ignoring case |
| Movies.EqualsIsCompareZero | Movie.java:203-231 | equals agrees with compareTo == 0, and every movie equals itself |
| Movies.CompareKeys | Movie.java:203-207 | compareTo on the year and lower-cased title: for different years its sign is that of the year difference, and it is zero exactly for equal keys |
| Movies.CompareKeysIsTotal | Movie.java:203-207 | compareTo is a total order: zero exactly for equal keys, antisymmetric and transitive |
| Movies.Movie.Heading | Movie.java:238-250 | the text before the location list starts with the title |
| Movies.Movie.Text | Movie.java:237-254 | toString's value starts with the heading and has at least two characters (a tab and a newline) per location; AddLocation shows each added location adds exactly its line |
| Movies.Movie.ToString | Movie.java:237-254 | the loop builds the heading, with actor2 and actor3 only when non-null, followed by one tab-indented line per location in list order |
| MovieLists.MovieList.constructor | MovieList.java:12-14 | a new movie list is a fresh, valid, empty tree ordered by compareTo |
| MovieLists.MovieList.AddMovie | MovieList.java:20-28 | a movie whose key is new is inserted and size grows by one; for a stored key the tree is unchanged and the stored movie receives m's first location, or an IndexOutOfBounds(0, 0) when m has none; no other movie changes |
| MovieLists.MovieList.OfferByTitle | MovieList.java:41-44 | one pass of the title loop adds the stored movie exactly when its trimmed, lower-cased title contains the trimmed, lower-cased keyword |
| MovieLists.MovieList.OfferByActor | MovieList.java:63-77 | one pass of the actor loop throws when the first actor is null, and otherwise adds the movie once exactly when one of its non-null actors' names contains the keyword |
| MovieLists.MovieList.GetMatchingTitles | MovieList.java:35-50 | null for a null or blank keyword or when nothing matches; otherwise a new list of exactly the stored movies whose title matches |
| MovieLists.MovieList.VisitByActor | MovieList.java:62-78 | one iteration of the actor loop extends the result by the matching movie at that position of the listing, or throws when that movie has no first actor |
| MovieLists.MovieList.CollectByActor | MovieList.java:62-78 | the actor loop succeeds exactly when every stored movie has a first actor, and then leaves exactly the movies whose cast matches |
| MovieLists.MovieList.GetMatchingActor | MovieList.java:57-83 | null for a null or blank keyword; a NullPointerException exactly when a stored movie has no first actor; otherwise null when nothing matches and else a new list of exactly the stored movies with a matching actor |
| MovieLists.LaterKeyIsNew | MovieList.java:40-44 | an element of the in-order listing never has the key of one listed before it, so the result list never refuses an add |
| MovieLists.AmongWholeListing | MovieList.java:40-45 | filtering the whole in-order listing keeps exactly the matching stored movies |

## Left out

- SFMovieData.main: reading the file, the console loop and `System.exit` are I/O. Only `splitCSVLine` is modelled.
- Location(ln, ff) prints the bad name to standard output before throwing. The print is not modelled; the exception is.
- BST.add2 is not modelled. It is unused, it increments `size` once per level of recursion, and it would break the size invariant.
- Bst.BST.Clone: node sharing after `clone` is not modelled. The Java helper returns the original nodes, so after `c = t.clone()` an `add` on either tree relinks a shared node and a `remove` overwrites a shared node's data: the other tree's contents change and its `size` no longer counts its nodes. In the model the tree is a value, so the clone and the original are independent after the call.
- BST(Node root) is not modelled. It leaves `size` at 0 whatever the root holds, and it is used only by `clone`, which then sets `size`.
- BST.inorder prints to standard output. It is not modelled.
- BST.toArray(T[]) relies on reflection and `Arrays.copyOf`. It is not modelled; `toArray()` is.
- BST.hashCode is object identity. It is not modelled.
- ClassCastException handling in `contains`, `remove` and `equals` is not modelled: the API is typed, so only same-typed arguments exist. For the same reason `equals` does not model the `getClass` test.
- Bst.BST.Equals compares elements through their keys. Java calls each element's `equals`. For movies the two agree (Movies.EqualsIsCompareZero).
- The search loops iterate over the in-order snapshot directly rather than through an `Iterator` object. The snapshot is the one `iterator()` builds (`Bst.BST.Iterator`).
- Movie.setTitle and Movie.setYear after construction are not modelled. Title and year are the key of the tree, so they are `const` fields here. Their checks are `CheckTitle` and `CheckYear`, which both constructors apply.
- Actor.java is a datatype holding the name. Its non-blank check in the constructor is not modelled.
- Java strings:
  - Case mapping is ASCII only and locale-neutral. Java's `toLowerCase()` uses the default locale, so under a Turkish locale 'I' becomes dotless 'ı'; that would change `compareTo`, `equals` and both searches, and is not modelled.
  - `trim` and `Character.isWhitespace` follow the Java definitions.
  - Element `toString` is a parameter `show` of the renderers.
- Movies.CompareKeys: titles are compared by code point (`JavaLang.CompareStrings`), since a Dafny `char` is a Unicode scalar value, while `String.compareTo` compares UTF-16 units. The two orders differ when a character above U+FFFF meets one in U+E000..U+FFFF, so titles holding such characters may be stored, listed and returned in another order than in Java. Trim, contains, isWhitespace and the splitter agree with Java on well-formed strings.
- Integer overflow: `compareTo` returns `year - o.year`, which cannot overflow for years in 1900..2020. Integers here are unbounded.
- The messages of the NullPointerExceptions that `higher`, `lower` and `getMatchingActor` throw are written in the JDK's helpful-message form. Only the exception kind comes from the code.
- Bst.BST.Floor: states soundness only, weaker than an exact floor. The helper it models as written is not exact (see Findings).
- Movie.getSfLocations returns the list itself. The model reads the field directly.

## Findings

| source | as written | input that shows it | evidently intended | confidence | as-written member | corrected member |
|---|---|---|---|---|---|---|
| BST.java:307-314 | when the argument is above the node and the right child is not below it, floor returns the node without searching the right child's left subtree | add 50, 70, 60; floor(65) returns 50 | floor(65) is 60, the greatest stored key at most 65 | not executed | BstTree.FloorAt, Bst.BST.Floor, BstTree.FloorAsWrittenMissesLeftOfRightChild | BstTree.FloorExact, Bst.BST.ExactFloor |
