/**
 * What the movie-metadata client does with the parsed JSON answers of the
 * movie database: taking the first search hit, composing the poster URL,
 * picking the director, the cast line and the trailer, and assembling the
 * details record with its per-field defaults. Each HTTP request is
 * represented by its parsed answer or by its failure; a JSON object is a
 * record whose fields are `None` when the key is absent. A list read with
 * `.get('results', [])` (or `'crew'`, `'cast'`) is a plain sequence, an
 * absent list being the empty one.
 */
module Tmdb {
  import opened Wrappers
  import opened Text

  const ImageBaseUrl := "https://image.tmdb.org/t/p/w500"
  const WatchUrlPrefix := "https://www.youtube.com/watch?v="
  const NotAvailable := "N/A"

  /** How many cast names the cast line lists. */
  const CastLimit := 3

  // ---------------------------------------------------------------------
  // Python's next() over a generator expression
  // ---------------------------------------------------------------------

  /** The outcome of `next(gen, default)`: a hit, the default, or a `KeyError` raised inside the generator. */
  datatype Scan<T> = Found(value: T) | Exhausted | KeyMissing

  /** `xs[i]` is the first element that passes `test`, every earlier one having been tested without raising. */
  ghost predicate FirstHit<T>(xs: seq<T>, test: T -> Option<bool>, i: int) {
    && 0 <= i < |xs|
    && test(xs[i]) == Some(true)
    && forall k :: 0 <= k < i ==> test(xs[k]) == Some(false)
  }

  /**
   * `next((project(x) for x in xs if test(x)), default)`, where `test` is
   * `None` when evaluating the condition raises and `project` is `None` when
   * reading the value of the hit raises.
   */
  function Next<T, U>(xs: seq<T>, test: T -> Option<bool>, project: T -> Option<U>): (r: Scan<U>)
    ensures r.Exhausted? <==> forall k :: 0 <= k < |xs| ==> test(xs[k]) == Some(false)
    ensures forall i :: FirstHit(xs, test, i) ==>
              r == if project(xs[i]).Some? then Found(project(xs[i]).value) else KeyMissing
    ensures r.Found? ==> exists i :: FirstHit(xs, test, i) && project(xs[i]) == Some(r.value)
  {
    if xs == [] then
      Exhausted
    else
      match test(xs[0])
      case None => KeyMissing
      case Some(false) =>
        var r := Next(xs[1..], test, project);
        assert forall i :: 1 <= i ==> (FirstHit(xs, test, i) <==> FirstHit(xs[1..], test, i - 1)) by {
          forall i | 1 <= i ensures FirstHit(xs, test, i) <==> FirstHit(xs[1..], test, i - 1) {
            assert forall k :: 1 <= k < |xs| ==> xs[k] == xs[1..][k - 1];
          }
        }
        assert !FirstHit(xs, test, 0);
        assert r.Found? ==> exists i :: FirstHit(xs, test, i) && project(xs[i]) == Some(r.value) by {
          if r.Found? {
            var j :| FirstHit(xs[1..], test, j) && project(xs[1..][j]) == Some(r.value);
            assert FirstHit(xs, test, j + 1) && xs[j + 1] == xs[1..][j];
          }
        }
        r
      case Some(true) =>
        assert FirstHit(xs, test, 0);
        assert forall i :: FirstHit(xs, test, i) ==> i == 0;
        match project(xs[0])
        case None => KeyMissing
        case Some(v) => Found(v)
  }

  // ---------------------------------------------------------------------
  // fetch_movie_videos
  // ---------------------------------------------------------------------

  /** One entry of the videos answer: its `key`, `site` and `type`. */
  datatype Video = Video(key: Option<string>, site: Option<string>, kind: Option<string>)

  datatype VideosResponse = VideosFailed | VideosOk(results: seq<Video>)

  /** `video['site'] == 'YouTube' and 'Trailer' in video['type']`, `None` where a lookup raises. */
  function IsYouTubeTrailer(v: Video): Option<bool> {
    match v.site
    case None => None
    case Some(site) =>
      if site != "YouTube" then Some(false)
      else match v.kind
        case None => None
        case Some(kind) => Some(Contains(kind, "Trailer"))
  }

  function VideoKey(v: Video): Option<string> {
    v.key
  }

  /**
   * `fetch_movie_videos`: the watch URL of the first YouTube trailer; `None`
   * when the request fails, when no video is a YouTube trailer, when a lookup
   * raises, or when the first trailer's key is empty.
   */
  function TrailerUrl(res: VideosResponse): (url: Option<string>)
    ensures url.Some? ==> res.VideosOk?
    ensures url.Some? ==> StartsWith(url.value, WatchUrlPrefix) && |url.value| > |WatchUrlPrefix|
  {
    match res
    case VideosFailed => None
    case VideosOk(videos) =>
      match Next(videos, IsYouTubeTrailer, VideoKey)
      case Found(key) => if key != "" then Some(WatchUrlPrefix + key) else None
      case _ => None
  }

  /**
   * The trailer URL is the watch prefix followed by the key of the first
   * video that is on YouTube and whose type mentions "Trailer", provided
   * the videos before it could be inspected.
   */
  lemma TrailerIsFirstYouTubeTrailer(videos: seq<Video>, i: nat, key: string)
    requires i < |videos| && videos[i].site == Some("YouTube") && videos[i].kind.Some?
    requires Contains(videos[i].kind.value, "Trailer") && videos[i].key == Some(key) && key != ""
    requires forall k :: 0 <= k < i ==> IsYouTubeTrailer(videos[k]) == Some(false)
    ensures TrailerUrl(VideosOk(videos)) == Some(WatchUrlPrefix + key)
    ensures TrailerUrl(VideosOk(videos)).value[|WatchUrlPrefix|..] == key
  {
    assert FirstHit(videos, IsYouTubeTrailer, i);
  }

  /** With no YouTube trailer among the videos there is no trailer URL. */
  lemma NoTrailerNoUrl(videos: seq<Video>)
    requires forall k :: 0 <= k < |videos| ==> IsYouTubeTrailer(videos[k]) == Some(false)
    ensures TrailerUrl(VideosOk(videos)) == None
  {
  }

  /** Only the first trailer counts: if its key is empty a later trailer is not used. */
  lemma EmptyFirstKeyHidesLaterTrailer()
    ensures TrailerUrl(VideosOk([
              Video(Some(""), Some("YouTube"), Some("Trailer")),
              Video(Some("abc"), Some("YouTube"), Some("Trailer"))])) == None
  {
    assert Contains("Trailer", "Trailer") by { assert OccursAt("Trailer", "Trailer", 0); }
    assert FirstHit([
              Video(Some(""), Some("YouTube"), Some("Trailer")),
              Video(Some("abc"), Some("YouTube"), Some("Trailer"))], IsYouTubeTrailer, 0);
  }

  // ---------------------------------------------------------------------
  // search_movie_tmdb
  // ---------------------------------------------------------------------

  datatype SearchHit = SearchHit(id: Option<int>)

  datatype SearchResponse = SearchFailed | SearchOk(results: seq<SearchHit>)

  /**
   * `search_movie_tmdb`: the `id` of the first result. `None` without an
   * API key (absent or empty), when the request fails, or when there are no
   * results.
   */
  function SearchMovie(apiKey: Option<string>, res: SearchResponse): (id: Option<int>)
    ensures id.Some? ==> apiKey.Some? && apiKey.value != "" && res.SearchOk? && res.results != []
    ensures apiKey.Some? && apiKey.value != "" && res.SearchOk? && res.results != [] ==> id == res.results[0].id
  {
    if apiKey.None? || apiKey.value == "" then None
    else match res
      case SearchFailed => None
      case SearchOk(results) => if results != [] then results[0].id else None
  }

  /** Python truthiness of a movie id: present and non-zero. */
  predicate IsTruthy(id: Option<int>) {
    id.Some? && id.value != 0
  }

  // ---------------------------------------------------------------------
  // fetch_movie_details
  // ---------------------------------------------------------------------

  /** The movie-details answer: `poster_path`, `budget`, `revenue`. */
  datatype DetailsResponse = DetailsFailed | DetailsOk(posterPath: Option<string>, budget: Option<int>, revenue: Option<int>)

  /** One of the movie-credits answer's `crew` entries: `name` and `job`. */
  datatype CrewMember = CrewMember(name: Option<string>, job: Option<string>)

  /** One of the movie-credits answer's `cast` entries: `name`. */
  datatype CastMember = CastMember(name: Option<string>)

  datatype CreditsResponse = CreditsFailed | CreditsOk(crew: seq<CrewMember>, cast: seq<CastMember>)

  /** A value of the details dictionary. */
  datatype Value = Null | Str(s: string) | Int(i: int)

  function OptionalStr(s: Option<string>): Value {
    match s
    case None => Null
    case Some(v) => Str(v)
  }

  /**
   * The poster URL: the image base followed by `poster_path` when the path
   * is present and non-empty (Python truthiness), `None` otherwise.
   */
  function PosterUrl(path: Option<string>): (url: Option<string>)
    ensures url.Some? <==> path.Some? && path.value != ""
    ensures url.Some? ==> StartsWith(url.value, ImageBaseUrl) && url.value[|ImageBaseUrl|..] == path.value
  {
    if path.Some? && path.value != "" then Some(ImageBaseUrl + path.value) else None
  }

  /** `crew['job'] == 'Director'`, `None` where the lookup raises. */
  function IsDirector(c: CrewMember): Option<bool> {
    match c.job
    case None => None
    case Some(job) => Some(job == "Director")
  }

  function CrewName(c: CrewMember): Option<string> {
    c.name
  }

  /** `[actor['name'] for actor in cast]`, `None` where a lookup raises. */
  function CastNames(cast: seq<CastMember>): (names: Option<seq<string>>)
    ensures names.Some? <==> forall k :: 0 <= k < |cast| ==> cast[k].name.Some?
    ensures names.Some? ==> |names.value| == |cast| && forall k :: 0 <= k < |cast| ==> names.value[k] == cast[k].name.value
  {
    if cast == [] then
      Some([])
    else
      var rest := CastNames(cast[1..]);
      if cast[0].name.None? then
        None
      else if rest.None? then
        assert !(forall k :: 0 <= k < |cast| ==> cast[k].name.Some?) by {
          var j :| 0 <= j < |cast[1..]| && cast[1..][j].name.None?;
          assert cast[j + 1] == cast[1..][j];
        }
        None
      else
        Some([cast[0].name.value] + rest.value)
  }

  /** The first `CastLimit` cast entries (`cast[:3]`). */
  function LeadingCast(cast: seq<CastMember>): (lead: seq<CastMember>)
    ensures |lead| == if |cast| < CastLimit then |cast| else CastLimit
    ensures lead == cast[..|lead|]
  {
    if |cast| < CastLimit then cast else cast[..CastLimit]
  }

  /** The director and the cast line as the details record holds them. */
  datatype CreditLines = CreditLines(director: string, cast: string)

  /**
   * The credits block of `fetch_movie_details`: the name of the first crew
   * entry whose job is "Director" (else "N/A") and the leading cast names
   * joined by ", ". A failed request or a missing key anywhere in the block
   * sets both to "N/A".
   */
  function Credits(res: CreditsResponse): (lines: CreditLines)
    ensures res.CreditsFailed? ==> lines == CreditLines(NotAvailable, NotAvailable)
    ensures res.CreditsOk? && res.cast == [] && Next(res.crew, IsDirector, CrewName) != KeyMissing ==> lines.cast == ""
  {
    match res
    case CreditsFailed => CreditLines(NotAvailable, NotAvailable)
    case CreditsOk(crew, cast) =>
      var director := Next(crew, IsDirector, CrewName);
      var names := CastNames(LeadingCast(cast));
      if director.KeyMissing? || names.None? then
        CreditLines(NotAvailable, NotAvailable)
      else
        CreditLines(if director.Found? then director.value else NotAvailable, Join(", ", names.value))
  }

  /**
   * When the leading cast entries all have names and the crew can be
   * scanned, the director is the first crew member whose job is exactly
   * "Director".
   */
  lemma DirectorIsFirstDirector(crew: seq<CrewMember>, cast: seq<CastMember>, i: nat)
    requires i < |crew| && crew[i].job == Some("Director") && crew[i].name.Some?
    requires forall k :: 0 <= k < i ==> crew[k].job.Some? && crew[k].job.value != "Director"
    requires forall k :: 0 <= k < |LeadingCast(cast)| ==> LeadingCast(cast)[k].name.Some?
    ensures Credits(CreditsOk(crew, cast)).director == crew[i].name.value
  {
    assert FirstHit(crew, IsDirector, i);
  }

  /** Without any crew entry whose job is "Director" the director is "N/A". */
  lemma NoDirectorGivesNotAvailable(crew: seq<CrewMember>, cast: seq<CastMember>)
    requires forall k :: 0 <= k < |crew| ==> crew[k].job.Some? && crew[k].job.value != "Director"
    requires forall k :: 0 <= k < |LeadingCast(cast)| ==> LeadingCast(cast)[k].name.Some?
    ensures Credits(CreditsOk(crew, cast)).director == NotAvailable
  {
  }

  /** Each of the (at most three) leading cast names appears in the cast line. */
  lemma CastLineListsLeadingNames(crew: seq<CrewMember>, cast: seq<CastMember>, k: nat)
    requires Next(crew, IsDirector, CrewName) != KeyMissing
    requires forall j :: 0 <= j < |LeadingCast(cast)| ==> LeadingCast(cast)[j].name.Some?
    requires k < |cast| && k < CastLimit
    ensures Contains(Credits(CreditsOk(crew, cast)).cast, cast[k].name.value)
  {
    var names := CastNames(LeadingCast(cast)).value;
    assert names[k] == cast[k].name.value;
    JoinContainsEach(", ", names, k);
  }

  /**
   * When the crew can be scanned and the leading cast entries all have
   * names, the cast line is exactly those names, in order, joined by ", ".
   */
  lemma CastLineJoinsLeadingNames(crew: seq<CrewMember>, cast: seq<CastMember>)
    requires Next(crew, IsDirector, CrewName) != KeyMissing
    requires forall j :: 0 <= j < |LeadingCast(cast)| ==> LeadingCast(cast)[j].name.Some?
    ensures var lead := LeadingCast(cast);
            Credits(CreditsOk(crew, cast)).cast
            == Join(", ", seq(|lead|, k requires 0 <= k < |lead| && lead[k].name.Some? => lead[k].name.value))
  {
    var lead := LeadingCast(cast);
    var names := CastNames(lead).value;
    assert names == seq(|lead|, k requires 0 <= k < |lead| && lead[k].name.Some? => lead[k].name.value);
  }

  /** Of four named cast members only the first three make the cast line. */
  lemma FourthCastMemberLeftOut()
    ensures var cast := [CastMember(Some("A")), CastMember(Some("B")), CastMember(Some("C")), CastMember(Some("D"))];
            Credits(CreditsOk([], cast)).cast == "A, B, C"
  {
    var cast := [CastMember(Some("A")), CastMember(Some("B")), CastMember(Some("C")), CastMember(Some("D"))];
    assert LeadingCast(cast) == cast[..3];
    assert CastNames(cast[..3]).value == ["A", "B", "C"];
    assert Join(", ", ["B", "C"]) == "B, C";
  }

  /** A cast entry without a name among the leading three sets both director and cast to "N/A". */
  lemma NamelessLeadBlanksCredits(crew: seq<CrewMember>, cast: seq<CastMember>, k: nat)
    requires k < |cast| && k < CastLimit && cast[k].name.None?
    ensures Credits(CreditsOk(crew, cast)) == CreditLines(NotAvailable, NotAvailable)
  {
    assert LeadingCast(cast)[k] == cast[k];
  }

  /**
   * The details record `fetch_movie_details` builds for a truthy movie id:
   * poster, budget and revenue exactly when the details request succeeded
   * (budget and revenue defaulting to 0), director and cast from the
   * credits block, and the trailer URL, each from its own answer.
   */
  ghost predicate DescribesAnswers(details: map<string, Value>, dres: DetailsResponse, cres: CreditsResponse, vres: VideosResponse) {
    && details.Keys == (if dres.DetailsOk? then {"poster_url", "budget", "revenue"} else {})
                       + {"director", "cast", "trailer_url"}
    && (dres.DetailsOk? ==>
          && details["poster_url"] == OptionalStr(PosterUrl(dres.posterPath))
          && details["budget"] == Int(dres.budget.GetOr(0))
          && details["revenue"] == Int(dres.revenue.GetOr(0)))
    && details["director"] == Str(Credits(cres).director)
    && details["cast"] == Str(Credits(cres).cast)
    && details["trailer_url"] == OptionalStr(TrailerUrl(vres))
  }

  /**
   * `fetch_movie_details(movie_id)`: `{}` for a falsy id; otherwise the
   * dictionary is filled in field by field, each group guarded on its own.
   */
  method FetchMovieDetails(movieId: Option<int>, dres: DetailsResponse, cres: CreditsResponse, vres: VideosResponse)
    returns (details: map<string, Value>)
    ensures !IsTruthy(movieId) ==> details == map[]
    ensures IsTruthy(movieId) ==> DescribesAnswers(details, dres, cres, vres)
  {
    if !IsTruthy(movieId) {
      return map[];
    }
    details := map[];
    // 1. details: poster, budget, revenue
    match dres {
      case DetailsOk(posterPath, budget, revenue) =>
        details := details["poster_url" := OptionalStr(PosterUrl(posterPath))];
        details := details["budget" := Int(budget.GetOr(0))];
        details := details["revenue" := Int(revenue.GetOr(0))];
      case DetailsFailed =>
    }
    // 2. credits: director and cast
    var lines := Credits(cres);
    details := details["director" := Str(lines.director)];
    details := details["cast" := Str(lines.cast)];
    // 3. videos: trailer
    details := details["trailer_url" := OptionalStr(TrailerUrl(vres))];
  }

  /** Director, cast and trailer are always in a details record built for a truthy id. */
  lemma AlwaysPresentKeys(details: map<string, Value>, dres: DetailsResponse, cres: CreditsResponse, vres: VideosResponse)
    requires DescribesAnswers(details, dres, cres, vres)
    ensures "director" in details && "cast" in details && "trailer_url" in details
    ensures dres.DetailsFailed? ==> "poster_url" !in details && "budget" !in details && "revenue" !in details
  {
  }

  /**
   * The fields fail independently: a failed credits request changes director
   * and cast to "N/A" and leaves poster, budget, revenue and trailer as they
   * would otherwise be.
   */
  lemma CreditsFailureIsolated(d1: map<string, Value>, d2: map<string, Value>,
                               dres: DetailsResponse, cres: CreditsResponse, vres: VideosResponse)
    requires DescribesAnswers(d1, dres, cres, vres)
    requires DescribesAnswers(d2, dres, CreditsFailed, vres)
    ensures d2["director"] == Str(NotAvailable) && d2["cast"] == Str(NotAvailable)
    ensures forall key :: key in d1 && key != "director" && key != "cast" ==> key in d2 && d2[key] == d1[key]
  {
  }

  // ---------------------------------------------------------------------
  // get_full_movie_data
  // ---------------------------------------------------------------------

  /** The record returned when the search finds no movie. */
  const DefaultDetails: map<string, Value> := map[
    "poster_url" := Null,
    "director" := Str(NotAvailable),
    "cast" := Str(NotAvailable),
    "budget" := Int(0),
    "revenue" := Int(0),
    "trailer_url" := Null]

  /**
   * `get_full_movie_data(title_en, year)`: search, then fetch the details of
   * the hit; on a miss (including an id of 0) the fixed all-default record.
   */
  method GetFullMovieData(apiKey: Option<string>, sres: SearchResponse, dres: DetailsResponse,
                          cres: CreditsResponse, vres: VideosResponse)
    returns (details: map<string, Value>)
    ensures !IsTruthy(SearchMovie(apiKey, sres)) ==> details == DefaultDetails
    ensures IsTruthy(SearchMovie(apiKey, sres)) ==> DescribesAnswers(details, dres, cres, vres)
    ensures "director" in details && "cast" in details && "trailer_url" in details
  {
    var movieId := SearchMovie(apiKey, sres);
    if IsTruthy(movieId) {
      details := FetchMovieDetails(movieId, dres, cres, vres);
    } else {
      details := DefaultDetails;
    }
  }
}
