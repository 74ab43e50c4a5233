/**
 * Movie.java: a film with a validated title and release year, optional
 * director, writer and three actors, and the list of its San Francisco
 * filming locations.  Movies are ordered by year and then by lower-cased
 * title; that order is the key of the tree that stores them.
 */
module Movies {
  import opened JavaLang
  import opened Ordering
  import opened BstTree
  import opened Locations

  /** An actor, shown by name. */
  datatype Actor = Actor(name: string)

  // ---------------------------------------------------------------------
  // Validation

  /** setTitle's check: the title is not null and not empty (it is not trimmed). */
  function CheckTitle(title: Option<string>): (r: Outcome)
    ensures r == Pass <==> title.Some? && |title.value| > 0
    ensures r != Pass ==> r == Fail(IllegalArgument("Not a valid title."))
  {
    if title.None? || |title.value| == 0 then Fail(IllegalArgument("Not a valid title.")) else Pass
  }

  /** setYear's check: the year lies in 1900..2020. */
  function CheckYear(year: int): (r: Outcome)
    ensures r == Pass <==> 1900 <= year <= 2020
    ensures r != Pass ==> r == Fail(IllegalArgument("Not a valid year."))
  {
    if year < 1900 || year > 2020 then Fail(IllegalArgument("Not a valid year.")) else Pass
  }

  /** setActor1's check: the first actor is not null. */
  function CheckActor1(actor1: Option<Actor>): (r: Outcome)
    ensures r == Pass <==> actor1.Some?
    ensures r != Pass ==> r == Fail(IllegalArgument("Not a valid actor."))
  {
    if actor1.None? then Fail(IllegalArgument("Not a valid actor.")) else Pass
  }

  // ---------------------------------------------------------------------
  // The order

  /** What compareTo looks at: the year and the lower-cased title. */
  datatype MovieKey = MovieKey(year: int, lowerTitle: string)

  /** compareTo on keys: the year difference, or for equal years the
      comparison of the lower-cased titles. */
  function CompareKeys(a: MovieKey, b: MovieKey): (r: int)
    ensures a.year != b.year ==> (r < 0 <==> a.year < b.year)
    ensures r == 0 <==> a == b
  {
    CompareStringsZero(a.lowerTitle, b.lowerTitle);
    if a.year != b.year then a.year - b.year else CompareStrings(a.lowerTitle, b.lowerTitle)
  }

  /** Movies compared by compareTo are totally ordered, and compare equal
      exactly when they agree in year and lower-cased title. */
  lemma CompareKeysIsTotal()
    ensures TotalOrder(CompareKeys)
  {
    CompareStringsIsTotal();
    forall a, b ensures CompareKeys(a, b) == 0 <==> a == b {
      CompareStringsZero(a.lowerTitle, b.lowerTitle);
    }
    forall a, b ensures CompareKeys(a, b) < 0 <==> CompareKeys(b, a) > 0 {
      CompareStringsFlip(a.lowerTitle, b.lowerTitle);
    }
    forall a, b, c | CompareKeys(a, b) < 0 && CompareKeys(b, c) < 0
      ensures CompareKeys(a, c) < 0
    {
      if a.year == b.year == c.year {
        CompareStringsTransitive(a.lowerTitle, b.lowerTitle, c.lowerTitle);
      }
    }
  }

  /** The key of a movie.  Title and year are fixed at construction, so the
      key of a stored movie never changes. */
  function KeyOf(m: Movie): MovieKey {
    MovieKey(m.year, ToLower(m.title))
  }

  /** The order of the tree of movies. */
  const MovieOrder: Ord<Movie, MovieKey> := Ord(KeyOf, CompareKeys)

  lemma MovieOrderIsValid()
    ensures MovieOrder.Valid()
  {
    CompareKeysIsTotal();
  }

  // ---------------------------------------------------------------------
  // Rendering helpers

  /** A String field in string concatenation: "null" when null. */
  function NullText(s: Option<string>): string {
    if s.None? then "null" else s.value
  }

  /** An Actor in string concatenation: its name, or "null". */
  function ActorText(a: Option<Actor>): string {
    if a.None? then "null" else a.value.name
  }

  /** One line of the location list. */
  function LocationLine(l: Location): string
    reads l
  {
    "\t" + l.Text() + "\n"
  }

  /** The location list: one line per location, in list order. */
  function LocationLines(locs: seq<Location>): (r: string)
    reads locs
    ensures |r| >= 2 * |locs|
  {
    if locs == [] then "" else LocationLines(locs[..|locs| - 1]) + LocationLine(locs[|locs| - 1])
  }

  /** Adding a location adds its line at the end. */
  lemma LocationLinesSnoc(locs: seq<Location>, l: Location)
    ensures LocationLines(locs + [l]) == LocationLines(locs) + LocationLine(l)
  {
    assert (locs + [l])[..|locs|] == locs;
  }

  /** The lines of a list are the lines of its parts. */
  lemma {:induction false} LocationLinesAppend(a: seq<Location>, b: seq<Location>)
    ensures LocationLines(a + b) == LocationLines(a) + LocationLines(b)
    decreases |b|
  {
    if b == [] {
      assert a + b == a;
    } else {
      var init, x := b[..|b| - 1], b[|b| - 1];
      assert b == init + [x] && a + b == (a + init) + [x];
      LocationLinesSnoc(a + init, x);
      LocationLinesSnoc(init, x);
      LocationLinesAppend(a, init);
      Associate(LocationLines(a), LocationLines(init), LocationLine(x));
    }
  }

  /** String concatenation regrouped, stated apart so that the larger proofs
      need not search for it. */
  lemma Associate(a: string, b: string, c: string)
    ensures a + b + c == a + (b + c)
  {
  }

  /** The lines of a prefix one longer add the line of its last location. */
  lemma LocationLinesStep(locs: seq<Location>, i: nat)
    requires i < |locs|
    ensures LocationLines(locs[..i + 1]) == LocationLines(locs[..i]) + LocationLine(locs[i])
  {
    assert locs[..i + 1][..i] == locs[..i];
  }

  class Movie {
    const title: string
    const year: int
    var director: Option<string>
    var writer: Option<string>
    var actor1: Option<Actor>
    var actor2: Option<Actor>
    var actor3: Option<Actor>
    var sfLocations: seq<Location>

    /** What both constructors establish: a non-empty title and a year in
        1900..2020.  Both are fixed afterwards. */
    predicate Valid() {
      |title| > 0 && 1900 <= year <= 2020
    }

    /** The state a successful constructor leaves: every field as given and
        no locations. */
    constructor Init(title: string, year: int, director: Option<string>, writer: Option<string>,
                     actor1: Option<Actor>, actor2: Option<Actor>, actor3: Option<Actor>)
      requires CheckTitle(Some(title)) == Pass && CheckYear(year) == Pass
      ensures this.title == title && this.year == year
      ensures this.director == director && this.writer == writer
      ensures this.actor1 == actor1 && this.actor2 == actor2 && this.actor3 == actor3
      ensures sfLocations == []
    {
      this.title := title;
      this.year := year;
      this.director := director;
      this.writer := writer;
      this.actor1 := actor1;
      this.actor2 := actor2;
      this.actor3 := actor3;
      sfLocations := [];
    }

    /** Movie(title, year): the title is checked first, then the year. */
    static method Create(title: Option<string>, year: int) returns (r: Result<Movie>)
      ensures CheckTitle(title) != Pass ==> r == Failure(CheckTitle(title).error)
      ensures CheckTitle(title) == Pass && CheckYear(year) != Pass ==> r == Failure(CheckYear(year).error)
      ensures r.Success? <==> CheckTitle(title) == Pass && CheckYear(year) == Pass
      ensures r.Success? ==> fresh(r.value) && r.value.title == title.value && r.value.year == year
      ensures r.Success? ==> r.value.director == None && r.value.writer == None
      ensures r.Success? ==> r.value.actor1 == None && r.value.actor2 == None && r.value.actor3 == None
      ensures r.Success? ==> r.value.sfLocations == [] && r.value.Valid()
    {
      var check := CheckTitle(title);
      if check != Pass {
        return Failure(check.error);
      }
      check := CheckYear(year);
      if check != Pass {
        return Failure(check.error);
      }
      var m := new Movie.Init(title.value, year, None, None, None, None, None);
      return Success(m);
    }

    /** Movie(title, year, director, writer, actor1, actor2, actor3): the
        checks run in the order title, year, first actor. */
    static method CreateWithCrew(title: Option<string>, year: int, director: Option<string>, writer: Option<string>,
                                 actor1: Option<Actor>, actor2: Option<Actor>, actor3: Option<Actor>)
      returns (r: Result<Movie>)
      ensures CheckTitle(title) != Pass ==> r == Failure(CheckTitle(title).error)
      ensures CheckTitle(title) == Pass && CheckYear(year) != Pass ==> r == Failure(CheckYear(year).error)
      ensures CheckTitle(title) == Pass && CheckYear(year) == Pass && CheckActor1(actor1) != Pass ==>
                r == Failure(CheckActor1(actor1).error)
      ensures r.Success? <==> CheckTitle(title) == Pass && CheckYear(year) == Pass && CheckActor1(actor1) == Pass
      ensures r.Success? ==> fresh(r.value) && r.value.title == title.value && r.value.year == year
      ensures r.Success? ==> r.value.director == director && r.value.writer == writer
      ensures r.Success? ==> r.value.actor1 == actor1 && r.value.actor2 == actor2 && r.value.actor3 == actor3
      ensures r.Success? ==> r.value.sfLocations == [] && r.value.Valid()
    {
      var check := CheckTitle(title);
      if check != Pass {
        return Failure(check.error);
      }
      check := CheckYear(year);
      if check != Pass {
        return Failure(check.error);
      }
      check := CheckActor1(actor1);
      if check != Pass {
        return Failure(check.error);
      }
      var m := new Movie.Init(title.value, year, director, writer, actor1, actor2, actor3);
      return Success(m);
    }

    /** setDirector: any value is stored. */
    method SetDirector(director: Option<string>)
      modifies this`director
      ensures this.director == director
    {
      this.director := director;
    }

    /** setWriter: any value is stored. */
    method SetWriter(writer: Option<string>)
      modifies this`writer
      ensures this.writer == writer
    {
      this.writer := writer;
    }

    /** setActor1: null is refused and the old actor kept. */
    method SetActor1(actor1: Option<Actor>) returns (r: Outcome)
      modifies this`actor1
      ensures r == CheckActor1(actor1)
      ensures this.actor1 == (if r == Pass then actor1 else old(this.actor1))
    {
      r := CheckActor1(actor1);
      if r == Pass {
        this.actor1 := actor1;
      }
    }

    /** setActor2: null is accepted. */
    method SetActor2(actor2: Option<Actor>)
      modifies this`actor2
      ensures this.actor2 == actor2
    {
      this.actor2 := actor2;
    }

    /** setActor3: null is accepted. */
    method SetActor3(actor3: Option<Actor>)
      modifies this`actor3
      ensures this.actor3 == actor3
    {
      this.actor3 := actor3;
    }

    /** addLocation: null is refused; otherwise the location goes to the end
        of the list and becomes the last line of the rendering. */
    method AddLocation(loc: Location?) returns (r: Outcome)
      modifies this`sfLocations
      ensures loc == null ==> r == Fail(IllegalArgument("Location can't be null.")) && sfLocations == old(sfLocations)
      ensures loc != null ==> r == Pass && sfLocations == old(sfLocations) + [loc]
      ensures loc != null ==> Text() == old(Text()) + LocationLine(loc)
    {
      if loc == null {
        return Fail(IllegalArgument("Location can't be null."));
      }
      ghost var heading, lines := Heading(), LocationLines(sfLocations + [loc]);
      LocationLinesSnoc(sfLocations, loc);
      Associate(heading, LocationLines(sfLocations), LocationLine(loc));
      sfLocations := sfLocations + [loc];
      assert Heading() == heading && LocationLines(sfLocations) == lines;
      return Pass;
    }

    /** compareTo: ordered by year, then by lower-cased title. */
    function CompareTo(o: Movie): (r: int)
      ensures year < o.year ==> r < 0
      ensures year > o.year ==> r > 0
      ensures year != o.year ==> r == year - o.year
      ensures year == o.year ==> r == CompareStrings(ToLower(title), ToLower(o.title))
      ensures r == 0 <==> year == o.year && ToLower(title) == ToLower(o.title)
    {
      CompareStringsZero(ToLower(title), ToLower(o.title));
      CompareKeys(KeyOf(this), KeyOf(o))
    }

    /** equals: the same year and the same title up to case. */
    function Equals(obj: Movie?): (b: bool)
      ensures b <==> obj != null && year == obj.year && EqualsIgnoreCase(title, obj.title)
    {
      if this == obj then true
      else if obj == null then false
      else if !EqualsIgnoreCase(title, obj.title) then false
      else if year != obj.year then false
      else true
    }

    /** The rendering up to the location list: title and year, a rule, the
        director, the writer, and the cast, where the second and third
        actors appear only when they are not null. */
    function Heading(): (h: string)
      reads this
      ensures title <= h
    {
      var top := title + " (" + IntToString(year) + ") \n"
        + "------------------------------\n"
        + "director:\t" + NullText(director) + "\n"
        + "writer:\t" + NullText(writer) + "\n"
        + "starring:\t" + ActorText(actor1);
      var withSecond := if actor2.Some? then top + ", " + ActorText(actor2) else top;
      var withThird := if actor3.Some? then withSecond + ", " + ActorText(actor3) else withSecond;
      withThird + "\nfilmed on location at:\n"
    }

    /** What toString returns. */
    function Text(): (s: string)
      reads this, sfLocations
      ensures Heading() <= s
      ensures |s| >= |Heading()| + 2 * |sfLocations|
    {
      Heading() + LocationLines(sfLocations)
    }

    /** toString: the heading, then one tab-indented line per location. */
    method ToString() returns (result: string)
      ensures result == Text()
    {
      result := title + " (" + IntToString(year) + ") \n"
        + "------------------------------\n"
        + "director:\t" + NullText(director) + "\n"
        + "writer:\t" + NullText(writer) + "\n"
        + "starring:\t" + ActorText(actor1);
      if actor2.Some? {
        result := result + ", " + ActorText(actor2);
      }
      if actor3.Some? {
        result := result + ", " + ActorText(actor3);
      }
      result := result + "\nfilmed on location at:\n";
      assert result == Heading();
      for i := 0 to |sfLocations|
        invariant result == Heading() + LocationLines(sfLocations[..i])
      {
        LocationLinesStep(sfLocations, i);
        Associate(Heading(), LocationLines(sfLocations[..i]), LocationLine(sfLocations[i]));
        result := result + ("\t" + sfLocations[i].Text() + "\n");
      }
      assert sfLocations[..|sfLocations|] == sfLocations;
    }
  }

  /** equals agrees with compareTo: two movies are equal exactly when they
      compare as zero, and every movie equals itself. */
  lemma EqualsIsCompareZero(a: Movie, b: Movie)
    ensures a.Equals(b) <==> a.CompareTo(b) == 0
    ensures a.Equals(a)
  {
    EqualsIgnoreCaseIsLowerEquality(a.title, b.title);
  }
}
