/** Validation of the `!trivia [category] [difficulty]` arguments and the
    Open Trivia Database query URL built from them. */
module TriviaRequest {
  import opened Wrappers
  import opened Text

  /** What a category name maps to: "any" adds no category to the query. */
  datatype CategoryId = AnyCategory | Category(id: nat)

  /** The category table of the `trivia` command, keyed by lower-case name. */
  const Categories: map<string, CategoryId> := map[
    "any" := AnyCategory,
    "general" := Category(9),
    "books" := Category(10),
    "film" := Category(11),
    "music" := Category(12),
    "theatre" := Category(13),
    "tv" := Category(14),
    "gaming" := Category(15),
    "science" := Category(17),
    "computers" := Category(18),
    "math" := Category(19),
    "mythology" := Category(20),
    "sports" := Category(21),
    "geography" := Category(22),
    "history" := Category(23),
    "politics" := Category(24),
    "art" := Category(25),
    "celebrities" := Category(26),
    "animals" := Category(27)
  ]

  const Difficulties: seq<string> := ["easy", "medium", "hard"]

  /** The command's default arguments. */
  const DefaultCategory: string := "any"
  const DefaultDifficulty: string := "medium"

  const ApiBase: string := "https://opentdb.com/api.php?amount=1&type=multiple"
  const CategoryParam: string := "&category="
  const DifficultyParam: string := "&difficulty="

  /** A validated request: the mapped category and the lower-cased difficulty. */
  datatype Request = Request(category: CategoryId, difficulty: string)

  datatype RequestError = InvalidCategory | InvalidDifficulty

  /** The two guards of the command, in their order: the category is checked
      first, then the difficulty, both after lower-casing. */
  function CheckRequest(category: string, difficulty: string): (r: Result<Request, RequestError>)
    ensures r == Failure(InvalidCategory) <==> Lower(category) !in Categories
    ensures r == Failure(InvalidDifficulty) <==>
              Lower(category) in Categories && Lower(difficulty) !in Difficulties
    ensures r.Success? ==>
              && r.value.category == Categories[Lower(category)]
              && r.value.difficulty == Lower(difficulty)
              && r.value.difficulty in Difficulties
  {
    var name := Lower(category);
    if name !in Categories then Failure(InvalidCategory)
    else if Lower(difficulty) !in Difficulties then Failure(InvalidDifficulty)
    else Success(Request(Categories[name], Lower(difficulty)))
  }

  /** The query URL: the fixed base, the category parameter unless the
      category is "any", then the difficulty parameter. */
  function Url(r: Request): (url: string)
    ensures IsPrefix(ApiBase, url)
    ensures IsSuffix(r.difficulty, url)
  {
    ApiBase
    + (match r.category
       case AnyCategory => ""
       case Category(id) => CategoryParam + Decimal(id))
    + DifficultyParam + r.difficulty
  }

  /** Reads a request back out of a query URL. */
  function ParseUrl(url: string): Option<Request>
  {
    if !IsPrefix(ApiBase, url) then None
    else
      var rest := url[|ApiBase|..];
      if IsPrefix(CategoryParam, rest) then
        var (digits, after) := SplitDigits(rest[|CategoryParam|..]);
        if digits == [] || !IsPrefix(DifficultyParam, after) then None
        else Some(Request(Category(DecimalValue(digits)), after[|DifficultyParam|..]))
      else if IsPrefix(DifficultyParam, rest) then
        Some(Request(AnyCategory, rest[|DifficultyParam|..]))
      else None
  }

  /** The URL determines the request it was built from. */
  lemma ParseUrlInvertsUrl(r: Request)
    ensures ParseUrl(Url(r)) == Some(r)
  {
    var url := Url(r);
    assert IsPrefix(ApiBase, url);
    var rest := url[|ApiBase|..];
    match r.category
    case AnyCategory =>
      assert rest == DifficultyParam + r.difficulty;
      assert rest[1] == 'd';
    case Category(id) =>
      var d := Decimal(id);
      assert rest == CategoryParam + (d + (DifficultyParam + r.difficulty));
      assert rest[|CategoryParam|..] == d + (DifficultyParam + r.difficulty);
      SplitDigitsOf(d, DifficultyParam + r.difficulty);
      DecimalRoundTrip(id);
  }

  /** The URL always ends with the difficulty parameter. */
  lemma UrlEndsWithDifficulty(r: Request)
    ensures IsSuffix(DifficultyParam + r.difficulty, Url(r))
  {
    var rest := match r.category
                case AnyCategory => ""
                case Category(id) => CategoryParam + Decimal(id);
    assert Url(r) == (ApiBase + rest) + (DifficultyParam + r.difficulty);
  }

  /** Different requests are sent to different URLs. */
  lemma UrlInjective(r1: Request, r2: Request)
    requires Url(r1) == Url(r2)
    ensures r1 == r2
  {
    ParseUrlInvertsUrl(r1);
    ParseUrlInvertsUrl(r2);
  }

  /** The URL carries a category parameter exactly when the category is not "any". */
  lemma UrlHasCategoryIffNotAny(r: Request)
    ensures IsPrefix(ApiBase + CategoryParam, Url(r)) <==> r.category.Category?
  {
    var url := Url(r);
    var p := ApiBase + CategoryParam;
    if r.category.AnyCategory? {
      assert url == ApiBase + (DifficultyParam + r.difficulty);
      assert url[|ApiBase| + 1] != p[|ApiBase| + 1];
    } else {
      assert url == p + (Decimal(r.category.id) + DifficultyParam + r.difficulty);
    }
  }

  /** Upper- and lower-case spellings of the arguments are treated alike. */
  lemma CheckRequestCaseInsensitive(category: string, difficulty: string)
    ensures CheckRequest(category, difficulty) == CheckRequest(Lower(category), Lower(difficulty))
  {
    LowerIdempotent(category);
    LowerIdempotent(difficulty);
  }

  /** Every listed category, and every listed difficulty, in any letter case,
      passes the guards. */
  lemma ListedArgumentsAccepted(category: string, difficulty: string)
    requires Lower(category) in Categories && Lower(difficulty) in Difficulties
    ensures CheckRequest(category, difficulty).Success?
  {
  }

  /** `!trivia` with no arguments asks for a medium question of any category. */
  lemma DefaultUrl()
    ensures CheckRequest(DefaultCategory, DefaultDifficulty) == Success(Request(AnyCategory, "medium"))
    ensures Url(Request(AnyCategory, "medium"))
            == "https://opentdb.com/api.php?amount=1&type=multiple&difficulty=medium"
  {
    assert Lower(DefaultCategory) == "any";
    assert Lower(DefaultDifficulty) == "medium";
  }

  /** `!trivia Books HARD` is accepted as category 10 at difficulty "hard" ... */
  lemma BooksHardAccepted()
    ensures CheckRequest("Books", "HARD") == Success(Request(Category(10), "hard"))
  {
    assert Lower("Books") == "books";
    assert Lower("HARD") == "hard";
  }

  /** ... and is sent to this URL. */
  lemma BooksHardUrl()
    ensures Url(Request(Category(10), "hard"))
            == "https://opentdb.com/api.php?amount=1&type=multiple&category=10&difficulty=hard"
  {
    var r := Request(Category(10), "hard");
    assert Decimal(10) == "10";
    assert Url(r) == ApiBase + (CategoryParam + "10") + DifficultyParam + "hard";
  }
}
