/** The film catalogue's rules: the year check of `Film`, and the `Handler`
    operations that add, edit, remove and find films. The database session
    is replaced by the sequence of stored films in insertion order, which
    is the order in which a query without `ORDER BY` returns them. Every
    field arrives as a string, as the entry fields of the form supply it. */
module FilmBrowser {
  import opened Wrappers
  import opened Lists

  /** The exceptions the catalogue raises. */
  datatype FilmError = InvalidYear | FilmAlreadyExists | FilmDoesntExist | EmptyInfo

  /** A stored film; `year` is the integer column. */
  datatype Film = Film(title: string, year: int, director: string, operator: string, producer: string)

  /** The latest year a film may have. */
  const LatestYear := 2021

  predicate IsDigit(c: char) {
    '0' <= c <= '9'
  }

  predicate AllDigits(s: string) {
    forall i :: 0 <= i < |s| ==> IsDigit(s[i])
  }

  /** `s.isnumeric()`: at least one character, and only digits. */
  predicate IsNumeric(s: string) {
    s != "" && AllDigits(s)
  }

  /** `int(s)` for a string of digits, read most significant digit first. */
  function DigitsValue(s: string): nat
    requires AllDigits(s)
  {
    if s == "" then 0
    else 10 * DigitsValue(s[..|s| - 1]) + (s[|s| - 1] as int - '0' as int)
  }

  /** `str(n)` for a natural number: its decimal digits, no leading zero. */
  function ShowNat(n: nat): (s: string)
    ensures AllDigits(s) && s != ""
    ensures |s| > 1 ==> s[0] != '0'
  {
    if n < 10 then [('0' as int + n) as char]
    else ShowNat(n / 10) + [('0' as int + n % 10) as char]
  }

  /** A year the catalogue accepts. */
  predicate ValidYear(year: string) {
    IsNumeric(year) && DigitsValue(year) <= LatestYear
  }

  /** The check `not str(year).isnumeric() or not int(str(year)) <= 2021`
      and the conversion `int(str(year))` that follows it. */
  function ParseYear(year: string): (r: Result<int, FilmError>)
    ensures r.Success? <==> ValidYear(year)
    ensures r.Failure? ==> r.error == InvalidYear
    ensures r.Success? ==> 0 <= r.value <= LatestYear
  {
    if !IsNumeric(year) || !(DigitsValue(year) <= LatestYear) then Failure(InvalidYear)
    else Success(DigitsValue(year))
  }

  /** Reading the digits of a number gives the number back. */
  lemma {:induction false} ShowNatValue(n: nat)
    ensures DigitsValue(ShowNat(n)) == n
  {
    if n >= 10 {
      ShowNatValue(n / 10);
      var s := ShowNat(n / 10) + [('0' as int + n % 10) as char];
      assert s[..|s| - 1] == ShowNat(n / 10);
    }
  }

  /** Every year from 0 to 2021, written out, is accepted and read back as
      itself; any later year is refused. */
  lemma YearRoundTrip(year: nat)
    ensures year <= LatestYear ==> ParseYear(ShowNat(year)) == Success(year)
    ensures year > LatestYear ==> ParseYear(ShowNat(year)) == Failure(InvalidYear)
  {
    ShowNatValue(year);
  }

  /** Leading zeros and the empty string: "02021" is 2021, "2022" and ""
      are refused. */
  lemma YearExamples()
    ensures ParseYear("02021") == Success(2021)
    ensures ParseYear("2022") == Failure(InvalidYear)
    ensures ParseYear("") == Failure(InvalidYear)
    ensures ParseYear("19a9") == Failure(InvalidYear)
  {
    assert "02021"[..4] == "0202" && "0202"[..3] == "020" && "020"[..2] == "02" && "02"[..1] == "0";
    assert "0"[..0] == "";
    assert "2022"[..3] == "202" && "202"[..2] == "20" && "20"[..1] == "2" && "2"[..0] == "";
    assert !IsDigit("19a9"[2]);
  }

  /** `Film.__init__`: the year is checked first; on success the film holds
      the given strings and the year as an integer. */
  function NewFilm(title: string, year: string, director: string, operator: string, producer: string)
    : (r: Result<Film, FilmError>)
    ensures r.Success? <==> ValidYear(year)
    ensures r.Failure? ==> r.error == InvalidYear
    ensures r.Success? ==>
              (ParseYear(year) == Success(r.value.year)
               && r.value.title == title && r.value.director == director
               && r.value.operator == operator && r.value.producer == producer)
  {
    var y :- ParseYear(year);
    Success(Film(title, y, director, operator, producer))
  }

  /** The keyword arguments of `filter_by`; `None` leaves a column out, and
      so does the empty string, since only truthy arguments become filters. */
  datatype Criteria = Criteria(title: Option<string>, year: Option<string>, director: Option<string>,
                               operator: Option<string>, producer: Option<string>)

  /** The criteria that name every column: the five fields of one film. */
  function Exactly(title: string, year: string, director: string, operator: string, producer: string): Criteria {
    Criteria(Some(title), Some(year), Some(director), Some(operator), Some(producer))
  }

  /** `if x: filters[...] = x`: the argument is truthy. */
  predicate Active(c: Option<string>) {
    c.Some? && c.value != ""
  }

  predicate NoCriteria(c: Criteria) {
    !Active(c.title) && !Active(c.year) && !Active(c.director) && !Active(c.operator) && !Active(c.producer)
  }

  /** A string column equals the filter value. */
  predicate TextMatches(c: Option<string>, value: string) {
    Active(c) ==> c.value == value
  }

  /** The integer `year` column against a string filter value: SQLite reads a
      string of digits as its number, and any other string equals no
      integer. */
  predicate YearMatches(c: Option<string>, year: int) {
    Active(c) ==> IsNumeric(c.value) && DigitsValue(c.value) == year
  }

  /** The film satisfies every active criterion. */
  predicate Matches(c: Criteria, f: Film) {
    TextMatches(c.title, f.title) && YearMatches(c.year, f.year) && TextMatches(c.director, f.director)
    && TextMatches(c.operator, f.operator) && TextMatches(c.producer, f.producer)
  }

  /** `all((title, director, year, operator, producer))`. */
  predicate AllGiven(title: string, year: string, director: string, operator: string, producer: string) {
    title != "" && year != "" && director != "" && operator != "" && producer != ""
  }

  /** Some stored film matches `c`. */
  predicate Stored(store: seq<Film>, c: Criteria) {
    exists i :: 0 <= i < |store| && Matches(c, store[i])
  }

  /** `query(Film).filter_by(...).first()`: the position of the first
      matching film. */
  function FirstMatch(store: seq<Film>, c: Criteria): (r: Option<nat>)
    ensures r.None? <==> !Stored(store, c)
    ensures r.Some? ==> r.value < |store| && Matches(c, store[r.value])
                        && forall i :: 0 <= i < r.value ==> !Matches(c, store[i])
  {
    if store == [] then None
    else if Matches(c, store[0]) then Some(0)
    else
      match FirstMatch(store[1..], c)
      case None =>
        assert forall i :: 1 <= i < |store| ==> store[i] == store[1..][i - 1];
        None
      case Some(k) => Some(k + 1)
  }

  /** `add_film`: an empty field raises `EmptyInfoException`; then a film
      with exactly these fields raises `FilmAlreadyExistsException`; then
      an invalid year raises `InvalidYearException`. Only when all three
      checks pass is one film, with the year as an integer, appended. */
  function AddFilm(store: seq<Film>, title: string, year: string, director: string, operator: string,
                   producer: string): (r: Result<seq<Film>, FilmError>)
    ensures r == Failure(EmptyInfo) <==> !AllGiven(title, year, director, operator, producer)
    ensures r == Failure(FilmAlreadyExists) <==>
              AllGiven(title, year, director, operator, producer)
              && Stored(store, Exactly(title, year, director, operator, producer))
    ensures r == Failure(InvalidYear) <==>
              AllGiven(title, year, director, operator, producer)
              && !Stored(store, Exactly(title, year, director, operator, producer))
              && !ValidYear(year)
    ensures r.Success? <==>
              AllGiven(title, year, director, operator, producer)
              && !Stored(store, Exactly(title, year, director, operator, producer))
              && ValidYear(year)
    ensures r.Success? ==>
              (|r.value| == |store| + 1 && r.value[..|store|] == store
               && var f := r.value[|store|];
                  ParseYear(year) == Success(f.year) && f.title == title && f.director == director
                  && f.operator == operator && f.producer == producer)
  {
    if !AllGiven(title, year, director, operator, producer) then Failure(EmptyInfo)
    else if FirstMatch(store, Exactly(title, year, director, operator, producer)).Some? then
      Failure(FilmAlreadyExists)
    else
      var film :- NewFilm(title, year, director, operator, producer);
      Success(store + [film])
  }

  /** Adding the same film twice: the second attempt raises
      `FilmAlreadyExistsException` and adds nothing. */
  lemma AddTwiceRejected(store: seq<Film>, title: string, year: string, director: string, operator: string,
                         producer: string)
    requires AddFilm(store, title, year, director, operator, producer).Success?
    ensures AddFilm(AddFilm(store, title, year, director, operator, producer).value,
                    title, year, director, operator, producer) == Failure(FilmAlreadyExists)
  {
    var s := AddFilm(store, title, year, director, operator, producer).value;
    assert Matches(Exactly(title, year, director, operator, producer), s[|store|]);
  }

  /** A film just added is found by its own fields. */
  lemma AddThenFind(store: seq<Film>, title: string, year: string, director: string, operator: string,
                    producer: string)
    requires AddFilm(store, title, year, director, operator, producer).Success?
    ensures var s := AddFilm(store, title, year, director, operator, producer).value;
            s[|store|] in FindFilms(s, Exactly(title, year, director, operator, producer))
  {
    var s := AddFilm(store, title, year, director, operator, producer).value;
    assert Matches(Exactly(title, year, director, operator, producer), s[|store|]);
  }

  /** The fields `edit_film` may change; a missing key leaves a field as it is. */
  datatype Changes = Changes(title: Option<string>, year: Option<string>, director: Option<string>,
                             operator: Option<string>, producer: Option<string>)

  /** `edited` is `film` with the fields named in `changes` replaced, the year
      converted to an integer. */
  predicate Edited(film: Film, changes: Changes, edited: Film) {
    && (if changes.year.Some? then ParseYear(changes.year.value) == Success(edited.year) else edited.year == film.year)
    && edited.title == changes.title.GetOr(film.title)
    && edited.director == changes.director.GetOr(film.director)
    && edited.operator == changes.operator.GetOr(film.operator)
    && edited.producer == changes.producer.GetOr(film.producer)
  }

  /** The assignments of `edit_film`, after its year check. */
  function ApplyChanges(film: Film, changes: Changes): (r: Result<Film, FilmError>)
    ensures r.Failure? <==> changes.year.Some? && !ValidYear(changes.year.value)
    ensures r.Failure? ==> r.error == InvalidYear
    ensures r.Success? ==> Edited(film, changes, r.value)
  {
    var year :- if changes.year.Some? then ParseYear(changes.year.value) else Success(film.year);
    Success(Film(changes.title.GetOr(film.title), year, changes.director.GetOr(film.director),
                 changes.operator.GetOr(film.operator), changes.producer.GetOr(film.producer)))
  }

  /** `edit_film`: an empty identifying field raises `EmptyInfoException`;
      no film with these fields raises `FilmDoesntExistException`; an
      invalid new year raises `InvalidYearException` before any field is
      touched. Otherwise the first matching film, and only it, gets the
      changes. */
  function EditFilm(store: seq<Film>, title: string, year: string, director: string, operator: string,
                    producer: string, changes: Changes): (r: Result<seq<Film>, FilmError>)
    ensures r == Failure(EmptyInfo) <==> !AllGiven(title, year, director, operator, producer)
    ensures r == Failure(FilmDoesntExist) <==>
              AllGiven(title, year, director, operator, producer)
              && !Stored(store, Exactly(title, year, director, operator, producer))
    ensures r == Failure(InvalidYear) <==>
              AllGiven(title, year, director, operator, producer)
              && Stored(store, Exactly(title, year, director, operator, producer))
              && changes.year.Some? && !ValidYear(changes.year.value)
    ensures r.Success? <==>
              AllGiven(title, year, director, operator, producer)
              && Stored(store, Exactly(title, year, director, operator, producer))
              && (changes.year.Some? ==> ValidYear(changes.year.value))
    ensures r.Success? ==>
              exists k :: 0 <= k < |store| && Matches(Exactly(title, year, director, operator, producer), store[k])
                && (forall i :: 0 <= i < k ==> !Matches(Exactly(title, year, director, operator, producer), store[i]))
                && |r.value| == |store|
                && (forall i :: 0 <= i < |store| && i != k ==> r.value[i] == store[i])
                && Edited(store[k], changes, r.value[k])
  {
    if !AllGiven(title, year, director, operator, producer) then Failure(EmptyInfo)
    else
      match FirstMatch(store, Exactly(title, year, director, operator, producer))
      case None => Failure(FilmDoesntExist)
      case Some(k) =>
        var film :- ApplyChanges(store[k], changes);
        Success(store[k := film])
  }

  /** An edit that names no field leaves the catalogue as it was. */
  lemma EditWithoutChanges(store: seq<Film>, title: string, year: string, director: string, operator: string,
                           producer: string)
    requires AllGiven(title, year, director, operator, producer)
    requires Stored(store, Exactly(title, year, director, operator, producer))
    ensures EditFilm(store, title, year, director, operator, producer, Changes(None, None, None, None, None))
            == Success(store)
  {
    var k := FirstMatch(store, Exactly(title, year, director, operator, producer)).value;
    assert store[k := store[k]] == store;
  }

  /** The test `find_films` keeps a film by, and the one `remove_films`
      keeps a film by. */
  function MatchesAll(c: Criteria): Film -> bool {
    f => Matches(c, f)
  }

  function MissesSome(c: Criteria): Film -> bool {
    f => !Matches(c, f)
  }

  /** The facts about a filtered catalogue that `find_films` and
      `remove_films` rely on. */
  lemma FilteredFilms(store: seq<Film>, p: Film -> bool)
    ensures forall f :: f in Filter(store, p) <==> f in store && p(f)
    ensures |Filter(store, p)| <= |store|
    ensures (forall k :: 0 <= k < |store| ==> p(store[k])) ==> Filter(store, p) == store
    ensures (forall k :: 0 <= k < |store| ==> !p(store[k])) ==> Filter(store, p) == []
  {
    forall f
      ensures f in Filter(store, p) <==> f in store && p(f)
    {
      FilterMembers(store, p, f);
    }
    FilterLength(store, p);
    if forall k :: 0 <= k < |store| ==> p(store[k]) {
      FilterKeepsAll(store, p);
    }
    if forall k :: 0 <= k < |store| ==> !p(store[k]) {
      FilterKeepsNone(store, p);
    }
  }

  /** `find_films`: the films that satisfy every criterion given, in stored
      order. */
  function FindFilms(store: seq<Film>, c: Criteria): (r: seq<Film>)
    ensures forall f :: f in r <==> f in store && Matches(c, f)
    ensures NoCriteria(c) ==> r == store
    ensures |r| <= |store|
  {
    FilteredFilms(store, MatchesAll(c));
    Filter(store, MatchesAll(c))
  }

  /** `remove_films`: every film that satisfies all criteria given is
      deleted, and every other film is kept in order. With no criteria
      every film goes. */
  function RemoveFilms(store: seq<Film>, c: Criteria): (r: seq<Film>)
    ensures forall f :: f in r <==> f in store && !Matches(c, f)
    ensures NoCriteria(c) ==> r == []
    ensures |r| <= |store|
  {
    FilteredFilms(store, MissesSome(c));
    Filter(store, MissesSome(c))
  }

  /** What `find_films` lists and what `remove_films` keeps are together the
      whole catalogue, each film once. */
  lemma FindAndRemovePartition(store: seq<Film>, c: Criteria)
    ensures multiset(FindFilms(store, c)) + multiset(RemoveFilms(store, c)) == multiset(store)
  {
    FilterSplit(store, MatchesAll(c), MissesSome(c));
  }

  /** After `remove_films`, searching with the same criteria finds nothing,
      and removing again changes nothing. */
  lemma RemoveThenFind(store: seq<Film>, c: Criteria)
    ensures FindFilms(RemoveFilms(store, c), c) == []
    ensures RemoveFilms(RemoveFilms(store, c), c) == RemoveFilms(store, c)
  {
    var rest := RemoveFilms(store, c);
    FilterKeepsNone(rest, MatchesAll(c));
    FilterKeepsAll(rest, MissesSome(c));
  }

  lemma Year2009()
    ensures ValidYear("2009") && DigitsValue("2009") == 2009
  {
    assert "2009"[..3] == "200" && "200"[..2] == "20" && "20"[..1] == "2" && "2"[..0] == "";
  }

  /** Error precedence on a catalogue holding one film: an empty field is
      reported before the duplicate, the duplicate before the year, and an
      edit of a film that is not stored fails whatever the changes. */
  lemma PrecedenceExample()
    ensures var store := [Film("Up", 2009, "Docter", "Kim", "Rivera")];
            && AddFilm(store, "Up", "2009", "Docter", "Kim", "") == Failure(EmptyInfo)
            && AddFilm(store, "Up", "2009", "Docter", "Kim", "Rivera") == Failure(FilmAlreadyExists)
            && AddFilm(store, "Up", "MMIX", "Docter", "Kim", "Rivera") == Failure(InvalidYear)
            && EditFilm(store, "Down", "2009", "Docter", "Kim", "Rivera", Changes(None, Some("x"), None, None, None))
               == Failure(FilmDoesntExist)
  {
    var store := [Film("Up", 2009, "Docter", "Kim", "Rivera")];
    Year2009();
    assert Matches(Exactly("Up", "2009", "Docter", "Kim", "Rivera"), store[0]);
    assert !IsNumeric("MMIX") by {
      assert !IsDigit("MMIX"[0]);
    }
    assert !Matches(Exactly("Down", "2009", "Docter", "Kim", "Rivera"), store[0]);
  }
}
