/**
 * MovieList.java: the tree of movies, ordered by Movie.compareTo, with the
 * merge of a movie's locations into the stored copy and the two keyword
 * searches, each of which builds a new list from the matching movies.
 */
module MovieLists {
  import opened JavaLang
  import opened Ordering
  import opened BstTree
  import opened Bst
  import opened Locations
  import opened Movies

  /** What getActor1().getName() throws on a movie without a first actor. */
  const NoFirstActor := NullPointer("Cannot invoke \"Actor.getName()\" because the return value of \"Movie.getActor1()\" is null")

  /** getMatchingTitles' test: the trimmed, lower-cased title contains the
      trimmed, lower-cased keyword. */
  predicate TitleMatches(m: Movie, keyword: string) {
    ContainsString(ToLower(Trim(m.title)), ToLower(Trim(keyword)))
  }

  /** The same test on an actor's name. */
  predicate NameMatches(a: Actor, keyword: string) {
    ContainsString(ToLower(Trim(a.name)), ToLower(Trim(keyword)))
  }

  /** The three actors of a movie, as its getters return them. */
  datatype Cast = Cast(actor1: Option<Actor>, actor2: Option<Actor>, actor3: Option<Actor>)

  /** getMatchingActor's test: one of the actors that are not null matches. */
  predicate CastMatches(c: Cast, keyword: string) {
    || (c.actor1.Some? && NameMatches(c.actor1.value, keyword))
    || (c.actor2.Some? && NameMatches(c.actor2.value, keyword))
    || (c.actor3.Some? && NameMatches(c.actor3.value, keyword))
  }

  /** The same test on a movie's current actors. */
  predicate ActorMatches(m: Movie, keyword: string)
    reads m
  {
    CastMatches(Cast(m.actor1, m.actor2, m.actor3), keyword)
  }

  /** A keyword both searches refuse: null, or blank once trimmed. */
  predicate Refused(keyword: Option<string>) {
    keyword.None? || |Trim(keyword.value)| == 0
  }

  /** The elements of a listing that belong to `w`. */
  ghost function Among<X>(s: seq<X>, w: set<X>): set<X> {
    set x | x in s && x in w
  }

  /** A prefix one longer adds its last element exactly when that one is
      in `w`. */
  lemma AmongGrows<X>(s: seq<X>, i: nat, w: set<X>, before: set<X>, after: set<X>)
    requires i < |s| && before == Among(s[..i], w)
    requires s[i] in w ==> after == before + {s[i]}
    requires s[i] !in w ==> after == before
    ensures after == Among(s[..i + 1], w)
  {
    assert s[..i + 1] == s[..i] + [s[i]];
  }

  /** Sequence facts stated apart, so that the search methods need not
      look for them among everything else they know. */
  lemma EmptyAppend<X>(s: seq<X>)
    ensures [] + s == s
  {
  }

  lemma WholePrefix<X>(s: seq<X>)
    ensures s[..|s|] == s
  {
  }

  /** The movies of a tree whose title matches the keyword. */
  ghost function TitlesIn(t: Tree<Movie>, keyword: string): set<Movie> {
    set m | m in Elements(t) && TitleMatches(m, keyword)
  }

  /** The current actors of each of a set of movies. */
  ghost function CastsOf(s: set<Movie>): map<Movie, Cast>
    reads s
  {
    map m | m in s :: Cast(m.actor1, m.actor2, m.actor3)
  }

  /** The movies whose actors match the keyword. */
  ghost function MatchingCasts(casts: map<Movie, Cast>, keyword: string): set<Movie> {
    set m | m in casts && CastMatches(casts[m], keyword)
  }

  /** The movies that have a first actor. */
  ghost function Credited(casts: map<Movie, Cast>): set<Movie> {
    set m | m in casts && casts[m].actor1.Some?
  }

  /** Each element of the in-order listing of a tree is held in the tree. */
  lemma ListedIsStored<T>(t: Tree<T>, s: seq<T>, i: nat)
    requires s == InOrder(t) && i < |s|
    ensures s[i] in Elements(t)
  {
    InOrderElements(t);
  }

  /** A set holding every listed element holds the whole tree. */
  lemma AllListed<T>(t: Tree<T>, s: seq<T>, w: set<T>)
    requires s == InOrder(t) && forall k | 0 <= k < |s| :: s[k] in w
    ensures Elements(t) <= w
  {
    InOrderElements(t);
  }

  /** The whole in-order listing of a tree holds every element of it. */
  lemma AmongWholeListing<T>(t: Tree<T>, w: set<T>)
    requires w <= Elements(t)
    ensures Among(InOrder(t), w) == w
  {
    InOrderElements(t);
  }

  /** Every movie held in a tree value is an allocated object. */
  lemma {:induction false} StoredAllocated(t: Tree<Movie>)
    ensures forall m | m in Elements(t) :: allocated(m)
  {
    if t.Node? {
      StoredAllocated(t.left);
      StoredAllocated(t.right);
    }
  }

  /** In the in-order listing of a search tree, the key of the next element
      is not yet the key of any element taken from before it. */
  lemma LaterKeyIsNew<T, K(!new)>(o: Ord<T, K>, src: Tree<T>, t: Tree<T>, s: seq<T>, i: nat)
    requires o.Valid() && IsBST(o, src) && s == InOrder(src) && i < |s|
    requires forall e | e in Elements(t) :: e in s[..i]
    ensures o.key(s[i]) !in Keys(o, t)
  {
    InOrderIsIncreasing(o, src);
    forall e | e in Elements(t) ensures o.key(e) != o.key(s[i]) {
      var j :| 0 <= j < i && s[..i][j] == e;
      assert s[j] == e && o.cmp(o.key(s[j]), o.key(s[i])) < 0;
    }
    if o.key(s[i]) in Keys(o, t) {
      KeyHasElement(o, t, o.key(s[i]));
    }
  }

  class MovieList {
    /** The tree MovieList inherits from BST<Movie>. */
    const tree: BST<Movie, MovieKey>

    ghost predicate Valid()
      reads this, tree
    {
      tree.Valid() && tree.ord == MovieOrder
    }

    /** MovieList(): an empty tree of movies. */
    constructor ()
      ensures Valid() && fresh(tree) && tree.root == Leaf && tree.size == 0
    {
      MovieOrderIsValid();
      tree := new BST(MovieOrder);
    }

    /** The stored movies whose title matches the keyword. */
    ghost function TitlesMatching(keyword: string): set<Movie>
      reads this, tree
    {
      TitlesIn(tree.root, keyword)
    }

    /** The stored movies with an actor matching the keyword. */
    ghost function ActorsMatching(keyword: string): set<Movie>
      reads this, tree, tree.Contents()
    {
      MatchingCasts(CastsOf(tree.Contents()), keyword)
    }

    /** addMovie: a movie equal to a stored one gives the stored movie its
        first location, and the tree keeps its shape; any other movie is
        added.  Reading the first location of a movie that has none throws
        IndexOutOfBounds(0, 0). */
    method AddMovie(m: Movie?) returns (r: Outcome)
      requires Valid()
      modifies tree, tree.Contents()`sfLocations
      ensures Valid()
      ensures forall x | x in old(tree.Contents()) :: old(allocated(x))
      ensures m == null ==> r == Pass && tree.root == old(tree.root) && tree.size == old(tree.size)
      ensures m != null && !old(tree.Contains(Some(m))) ==>
                && r == Pass
                && tree.root == Insert(MovieOrder, m, old(tree.root))
                && tree.size == old(tree.size) + 1
                && tree.Contents() == old(tree.Contents()) + {m}
      ensures m != null && old(tree.Contains(Some(m))) ==>
                && tree.root == old(tree.root) && tree.size == old(tree.size)
                && var stored := old(tree.Get(Some(m))).value;
                   && KeyOf(stored) == KeyOf(m)
                   && (old(m.sfLocations) == [] ==>
                         r == Fail(IndexOutOfBounds(0, 0)) && stored.sfLocations == old(stored.sfLocations))
                   && (old(m.sfLocations) != [] ==>
                         r == Pass && stored.sfLocations == old(stored.sfLocations) + [old(m.sfLocations[0])])
                   && forall x | x in old(tree.Contents()) && x != stored :: x.sfLocations == old(x.sfLocations)
      ensures m == null || !old(tree.Contains(Some(m))) ==>
                forall x | x in old(tree.Contents()) :: x.sfLocations == old(x.sfLocations)
    {
      StoredAllocated(tree.root);
      if m != null && tree.Contains(Some(m)) {
        var stored := tree.Get(Some(m)).value;
        if m.sfLocations == [] {
          return Fail(IndexOutOfBounds(0, 0));
        }
        r := stored.AddLocation(m.sfLocations[0]);
        return;
      }
      var _ := tree.Add(if m == null then None else Some(m));
      r := Pass;
    }

    /** The body of getMatchingTitles' for-each loop: the stored movie equal
        to m goes into the result when its trimmed title matches. */
    method OfferByTitle(m: Movie, keyword: string, found: MovieList)
      requires Valid() && found.Valid() && found.tree != tree
      requires m in tree.Contents() && KeyOf(m) !in found.tree.KeySet()
      modifies found.tree
      ensures found.Valid()
      ensures TitleMatches(m, keyword) ==> found.tree.Contents() == old(found.tree.Contents()) + {m}
      ensures !TitleMatches(m, keyword) ==> found.tree.Contents() == old(found.tree.Contents())
    {
      var stored := tree.Get(Some(m)).value;
      KeysIdentifyElements(MovieOrder, tree.root, stored, m);
      var theTitle := Trim(stored.title);
      if ContainsString(ToLower(theTitle), ToLower(Trim(keyword))) {
        var _ := found.tree.Add(Some(stored));
      }
    }

    /** The body of getMatchingActor's for-each loop: the stored movie equal
        to m goes into the result, once, when its first actor matches, or
        else its second, or else its third.  A null first actor throws. */
    method OfferByActor(m: Movie, keyword: string, found: MovieList) returns (r: Outcome)
      requires Valid() && found.Valid() && found.tree != tree
      requires m in tree.Contents() && KeyOf(m) !in found.tree.KeySet()
      modifies found.tree
      ensures found.Valid()
      ensures r == Pass <==> old(m.actor1).Some?
      ensures r != Pass ==> r == Fail(NoFirstActor) && found.tree.Contents() == old(found.tree.Contents())
      ensures r == Pass && old(ActorMatches(m, keyword)) ==> found.tree.Contents() == old(found.tree.Contents()) + {m}
      ensures r == Pass && !old(ActorMatches(m, keyword)) ==> found.tree.Contents() == old(found.tree.Contents())
    {
      var stored := tree.Get(Some(m)).value;
      KeysIdentifyElements(MovieOrder, tree.root, stored, m);
      if stored.actor1.None? {
        return Fail(NoFirstActor);
      }
      r := Pass;
      // Each of the three branches that add does the same add.
      var matches := false;
      if NameMatches(stored.actor1.value, keyword) {
        matches := true;
      } else {
        var actor2 := stored.actor2;
        if actor2.Some? && NameMatches(actor2.value, keyword) {
          matches := true;
        } else {
          var actor3 := stored.actor3;
          if actor3.Some? && NameMatches(actor3.value, keyword) {
            matches := true;
          }
        }
      }
      if matches {
        var _ := found.tree.Add(Some(stored));
      }
    }

    /** getMatchingTitles: null for a refused keyword or when nothing
        matches; otherwise a new list of exactly the stored movies whose
        title matches.  This list is not changed. */
    method GetMatchingTitles(title: Option<string>) returns (r: Option<MovieList>)
      requires Valid()
      ensures Refused(title) ==> r.None?
      ensures !Refused(title) ==> (r.None? <==> TitlesMatching(title.value) == {})
      ensures r.Some? ==> && fresh(r.value) && fresh(r.value.tree) && r.value.Valid()
                          && r.value.tree.Contents() == TitlesMatching(title.value)
    {
      var matchingTitles := new MovieList();
      if Refused(title) {
        return None;
      }
      var keyword := title.value;
      var items := FillInorder(tree.root, []);
      EmptyAppend(InOrder(tree.root));
      ghost var wanted := TitlesMatching(keyword);
      for i := 0 to |items|
        invariant fresh(matchingTitles.tree) && matchingTitles.Valid()
        invariant matchingTitles.tree.Contents() == Among(items[..i], wanted)
      {
        var m := items[i];
        ListedIsStored(tree.root, items, i);
        LaterKeyIsNew(MovieOrder, tree.root, matchingTitles.tree.root, items, i);
        ghost var before := matchingTitles.tree.Contents();
        OfferByTitle(m, keyword, matchingTitles);
        AmongGrows(items, i, wanted, before, matchingTitles.tree.Contents());
      }
      WholePrefix(items);
      AmongWholeListing(tree.root, wanted);
      if matchingTitles.tree.Size() == 0 {
        return None;
      }
      return Some(matchingTitles);
    }

    /** Whether every stored movie has a first actor. */
    ghost predicate AllHaveFirstActor()
      reads this, tree, tree.Contents()
    {
      forall m | m in tree.Contents() :: m.actor1.Some?
    }

    /** One pass of getMatchingActor's for-each loop, on the movie at `i` of
        the in-order listing, given the actors it had when the loop started:
        without a first actor it throws, otherwise the result holds the
        matching movies one place further along the listing. */
    method VisitByActor(items: seq<Movie>, i: nat, keyword: string, found: MovieList, ghost casts: map<Movie, Cast>)
      returns (r: Outcome)
      requires Valid() && found.Valid() && found.tree != tree
      requires items == InOrder(tree.root) && i < |items|
      requires items[i] in casts && casts[items[i]] == Cast(items[i].actor1, items[i].actor2, items[i].actor3)
      requires found.tree.Contents() == Among(items[..i], MatchingCasts(casts, keyword))
      modifies found.tree
      ensures found.Valid()
      ensures r == Pass <==> items[i] in Credited(casts)
      ensures r != Pass ==> r == Fail(NoFirstActor)
      ensures r == Pass ==> found.tree.Contents() == Among(items[..i + 1], MatchingCasts(casts, keyword))
    {
      var m := items[i];
      ghost var wanted := MatchingCasts(casts, keyword);
      ListedIsStored(tree.root, items, i);
      LaterKeyIsNew(MovieOrder, tree.root, found.tree.root, items, i);
      assert m in wanted <==> ActorMatches(m, keyword);
      ghost var before := found.tree.Contents();
      r := OfferByActor(m, keyword, found);
      if r == Pass {
        AmongGrows(items, i, wanted, before, found.tree.Contents());
      }
    }

    /** getMatchingActor's for-each loop over the stored movies in order,
        against the actors they had when it started: it stops at the first
        movie without a first actor, and otherwise leaves in `found` exactly
        the movies whose cast matches. */
    method CollectByActor(items: seq<Movie>, keyword: string, found: MovieList, ghost casts: map<Movie, Cast>)
      returns (r: Outcome)
      requires Valid() && found.Valid() && found.tree != tree && found.tree.Contents() == {}
      requires items == InOrder(tree.root) && casts == CastsOf(tree.Contents())
      modifies found.tree
      ensures found.Valid()
      ensures r == Pass <==> tree.Contents() <= Credited(casts)
      ensures r != Pass ==> r == Fail(NoFirstActor)
      ensures r == Pass ==> found.tree.Contents() == MatchingCasts(casts, keyword)
    {
      ghost var wanted := MatchingCasts(casts, keyword);
      ghost var credited := Credited(casts);
      EmptyAppend(items);
      for i := 0 to |items|
        invariant found.Valid()
        invariant found.tree.Contents() == Among(items[..i], wanted)
        invariant forall k | 0 <= k < i :: items[k] in credited
      {
        ListedIsStored(tree.root, items, i);
        assert Cast(items[i].actor1, items[i].actor2, items[i].actor3) == casts[items[i]];
        var offered := VisitByActor(items, i, keyword, found, casts);
        if offered != Pass {
          assert items[i] in tree.Contents() && items[i] !in credited;
          return Fail(NoFirstActor);
        }
      }
      AllListed(tree.root, items, credited);
      WholePrefix(items);
      AmongWholeListing(tree.root, wanted);
      return Pass;
    }

    /** getMatchingActor: null for a refused keyword or when nothing matches;
        otherwise a new list of exactly the stored movies with a matching
        actor, each added once by the else-chain over the three actors.
        actor1 is read without a null check, so a stored movie without one
        throws.  This list is not changed. */
    method GetMatchingActor(actor: Option<string>) returns (r: Result<Option<MovieList>>)
      requires Valid()
      ensures Refused(actor) ==> r == Success(None)
      ensures !Refused(actor) ==> (r.Failure? <==> !old(AllHaveFirstActor()))
      ensures r.Failure? ==> r.error == NoFirstActor
      ensures !Refused(actor) && r.Success? ==> (r.value.None? <==> old(ActorsMatching(actor.value)) == {})
      ensures r.Success? && r.value.Some? ==>
                && fresh(r.value.value) && fresh(r.value.value.tree) && r.value.value.Valid()
                && r.value.value.tree.Contents() == old(ActorsMatching(actor.value))
    {
      // The actors of the stored movies when the search starts.
      ghost var casts := CastsOf(tree.Contents());
      assert AllHaveFirstActor() <==> tree.Contents() <= Credited(casts);
      var matchingActors := new MovieList();
      if Refused(actor) {
        return Success(None);
      }
      var keyword := actor.value;
      var items := FillInorder(tree.root, []);
      EmptyAppend(InOrder(tree.root));
      var outcome := CollectByActor(items, keyword, matchingActors, casts);
      if outcome != Pass {
        return Failure(NoFirstActor);
      }
      if matchingActors.tree.IsEmpty() {
        return Success(None);
      }
      return Success(Some(matchingActors));
    }
  }
}
