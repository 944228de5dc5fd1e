/**
 * The training stage: the ranking prefix ("12. ") is removed from every
 * English title, the enriched synopses are embedded and clustered into
 * `NClusters` groups, and each row is labelled with its cluster. The
 * sentence encoder and K-Means together are an oracle `fit` from the
 * synopsis column to one label per row; with the fixed random seed it is a
 * function of that column alone.
 */
module Training {
  import opened Wrappers
  import opened Text
  import opened Dataset

  /** The number of K-Means clusters. */
  const NClusters := 5

  // ---------------------------------------------------------------------
  // The title fix: replace `^\d+\.\s*` by the empty string
  // ---------------------------------------------------------------------

  predicate IsDigit(c: char) {
    '0' <= c <= '9'
  }

  /** The length of the run of digits at the start of `s` (the greedy `\d+`). */
  function DigitRun(s: string): (n: nat)
    ensures n <= |s|
  {
    if s != [] && IsDigit(s[0]) then 1 + DigitRun(s[1..]) else 0
  }

  /** The run is all digits and is not followed by a digit. */
  lemma {:induction false} DigitRunIsMaximal(s: string)
    ensures forall i :: 0 <= i < DigitRun(s) ==> IsDigit(s[i])
    ensures DigitRun(s) == |s| || !IsDigit(s[DigitRun(s)])
  {
    if s != [] && IsDigit(s[0]) {
      DigitRunIsMaximal(s[1..]);
      assert forall i :: 1 <= i < |s| ==> s[1..][i - 1] == s[i];
    }
  }

  /** `s` starts with a match of `\d+\.`. */
  predicate HasRankPrefix(s: string) {
    var n := DigitRun(s);
    0 < n < |s| && s[n] == '.'
  }

  /** `title[..end]` is one or more digits, a full stop at index `dot`, then only whitespace. */
  predicate RankPrefixShape(title: string, dot: nat, end: nat) {
    && 0 < dot < end <= |title|
    && (forall i :: 0 <= i < dot ==> IsDigit(title[i]))
    && title[dot] == '.'
    && AllSpace(title[dot + 1..end])
  }

  /** The length of the match of `^\d+\.\s*` at the start of `title` (0 when there is none). */
  function RankPrefixLength(title: string): (n: nat)
    ensures n <= |title|
    ensures !HasRankPrefix(title) <==> n == 0
  {
    if HasRankPrefix(title) then
      var dot := DigitRun(title);
      dot + 1 + LeadingSpaces(title[dot + 1..])
    else
      0
  }

  /**
   * `title.replace(r'^\d+\.\s*', '')`: a title that starts with digits and
   * a full stop loses them and the whitespace after them; any other title
   * is unchanged.
   */
  function StripRankPrefix(title: string): (r: string)
    ensures |r| <= |title|
    ensures !HasRankPrefix(title) ==> r == title
    ensures HasRankPrefix(title) ==> |r| < |title|
  {
    title[RankPrefixLength(title)..]
  }

  /**
   * When the title has the prefix, what is removed is digits, a full stop
   * and whitespace, and what is left does not start with whitespace: the
   * match is the greedy one.
   */
  lemma RankPrefixRemoved(title: string)
    requires HasRankPrefix(title)
    ensures RankPrefixShape(title, DigitRun(title), RankPrefixLength(title))
    ensures StripRankPrefix(title) == title[RankPrefixLength(title)..]
    ensures var r := StripRankPrefix(title); r == [] || !IsSpace(r[0])
  {
    var dot := DigitRun(title);
    DigitRunIsMaximal(title);
    var t := title[dot + 1..];
    var n := LeadingSpaces(t);
    assert title[dot + 1..dot + 1 + n] == t[..n];
    assert n < |t| ==> title[dot + 1 + n] == t[n];
  }

  /** A digit run followed by something else than a digit is exactly as long as the digits. */
  lemma {:induction false} DigitRunOfDigits(digits: string, rest: string)
    requires forall i :: 0 <= i < |digits| ==> IsDigit(digits[i])
    requires rest == [] || !IsDigit(rest[0])
    ensures DigitRun(digits + rest) == |digits|
  {
    if digits != [] {
      assert (digits + rest)[1..] == digits[1..] + rest;
      DigitRunOfDigits(digits[1..], rest);
    } else {
      assert digits + rest == rest;
    }
  }

  /** Whitespace in front of a piece that does not start with whitespace is exactly what `lstrip` counts. */
  lemma {:induction false} LeadingSpacesOf(spaces: string, rest: string)
    requires AllSpace(spaces)
    requires rest == [] || !IsSpace(rest[0])
    ensures LeadingSpaces(spaces + rest) == |spaces|
  {
    if spaces != [] {
      assert (spaces + rest)[1..] == spaces[1..] + rest;
      LeadingSpacesOf(spaces[1..], rest);
    } else {
      assert spaces + rest == rest;
    }
  }

  /**
   * Removing the prefix undoes ranking a title: a title that does not start
   * with whitespace comes back from `rank + "." + spaces + title`.
   */
  lemma {:induction false} StripRankPrefixUndoesRanking(rank: string, spaces: string, title: string)
    requires rank != [] && forall i :: 0 <= i < |rank| ==> IsDigit(rank[i])
    requires AllSpace(spaces)
    requires title == [] || !IsSpace(title[0])
    ensures StripRankPrefix(rank + "." + spaces + title) == title
  {
    var s := rank + "." + spaces + title;
    assert s == rank + ("." + spaces + title);
    DigitRunOfDigits(rank, "." + spaces + title);
    assert s[|rank|] == '.';
    assert s[|rank| + 1..] == spaces + title;
    LeadingSpacesOf(spaces, title);
    assert s[|rank| + 1 + |spaces|..] == title;
  }

  /** A title whose leading digits are not followed by a full stop is kept as it is. */
  lemma {:induction false} UnrankedTitleKept(digits: string, rest: string)
    requires forall i :: 0 <= i < |digits| ==> IsDigit(digits[i])
    requires rest == [] || (!IsDigit(rest[0]) && rest[0] != '.')
    ensures StripRankPrefix(digits + rest) == digits + rest
  {
    DigitRunOfDigits(digits, rest);
    assert rest != [] ==> (digits + rest)[|digits|] == rest[0];
  }

  /** A title made of digits only is kept. */
  lemma DigitsOnlyTitleKept()
    ensures StripRankPrefix("300") == "300"
  {
    UnrankedTitleKept("300", "");
    assert "300" + "" == "300";
  }

  /** A year followed by a colon is kept. */
  lemma YearColonTitleKept()
    ensures StripRankPrefix("2001: Up") == "2001: Up"
  {
    UnrankedTitleKept("2001", ": Up");
    assert "2001" + ": Up" == "2001: Up";
  }

  /**
   * Only the first prefix is removed: a title ranked twice keeps its second
   * rank, which a second pass would remove, so the fix is not idempotent.
   */
  lemma {:induction false} OnlyFirstPrefixRemoved(rank1: string, rank2: string, title: string)
    requires rank1 != [] && forall i :: 0 <= i < |rank1| ==> IsDigit(rank1[i])
    requires rank2 != [] && forall i :: 0 <= i < |rank2| ==> IsDigit(rank2[i])
    requires title == [] || !IsSpace(title[0])
    ensures StripRankPrefix(rank1 + "." + rank2 + "." + title) == rank2 + "." + title
    ensures StripRankPrefix(StripRankPrefix(rank1 + "." + rank2 + "." + title)) == title != rank2 + "." + title
  {
    var once := rank2 + "." + title;
    var twice := rank1 + "." + rank2 + "." + title;
    assert !IsSpace(once[0]) by { assert once[0] == rank2[0] && IsDigit(rank2[0]); }
    assert twice == rank1 + "." + "" + once;
    StripRankPrefixUndoesRanking(rank1, "", once);
    assert once == rank2 + "." + "" + title;
    StripRankPrefixUndoesRanking(rank2, "", title);
    assert |once| > |title|;
  }

  /** A row with the fix applied to its `title_en`. */
  function FixTitle(row: EnrichedFilm): EnrichedFilm {
    row.(film := row.film.(titleEn := StripRankPrefix(row.film.titleEn)))
  }

  /** The fix in place on the `title_en` column; every other column is untouched. */
  method NormaliseTitles(frame: array<EnrichedFilm>)
    modifies frame
    ensures forall i :: 0 <= i < frame.Length ==> frame[i] == FixTitle(old(frame[i]))
  {
    var i := 0;
    while i < frame.Length
      invariant 0 <= i <= frame.Length
      invariant forall k :: 0 <= k < i ==> frame[k] == FixTitle(old(frame[k]))
      invariant forall k :: i <= k < frame.Length ==> frame[k] == old(frame[k])
    {
      label BeforeFix:
      var row := frame[i];
      assert row == old(frame[i]);
      var fixedRow := FixTitle(row);
      frame[i] := fixedRow;
      assert forall k :: 0 <= k < frame.Length && k != i ==> frame[k] == old@BeforeFix(frame[k]);
      i := i + 1;
    }
  }

  // ---------------------------------------------------------------------
  // train_and_save_model
  // ---------------------------------------------------------------------

  /** `labels` assigns every one of `n` rows a cluster in `0 .. NClusters - 1`. */
  predicate IsLabelling(labels: seq<int>, n: nat) {
    |labels| == n && forall i :: 0 <= i < |labels| ==> 0 <= labels[i] < NClusters
  }

  /** The `sinopse_enriched` column, the text the encoder embeds. */
  function SynopsisColumn(rows: seq<EnrichedFilm>): (column: seq<string>)
    ensures |column| == |rows|
    ensures forall i :: 0 <= i < |rows| ==> column[i] == rows[i].synopsisEnriched
  {
    seq(|rows|, i requires 0 <= i < |rows| => rows[i].synopsisEnriched)
  }

  /**
   * `train_and_save_model`: K-Means refuses fewer rows than clusters
   * (`None`); otherwise each row keeps its columns and gets the label
   * `fit` assigned to its synopsis position.
   */
  function TrainAndSaveModel(frame: seq<EnrichedFilm>, fit: seq<string> -> seq<int>): (labelled: Option<seq<Movie>>)
    requires |frame| >= NClusters ==> IsLabelling(fit(SynopsisColumn(frame)), |frame|)
    ensures labelled.None? <==> |frame| < NClusters
    ensures labelled.Some? ==> |labelled.value| == |frame|
    ensures labelled.Some? ==> forall i :: 0 <= i < |frame| ==>
              && labelled.value[i].film == frame[i].film
              && labelled.value[i].synopsisEnriched == frame[i].synopsisEnriched
              && labelled.value[i].cluster == fit(SynopsisColumn(frame))[i]
              && 0 <= labelled.value[i].cluster < NClusters
  {
    if |frame| < NClusters then
      None
    else
      var labels := fit(SynopsisColumn(frame));
      Some(seq(|frame|, i requires 0 <= i < |frame| => Movie(frame[i].film, frame[i].synopsisEnriched, labels[i])))
  }

  /**
   * Training reads only the synopsis column: two tables with the same
   * enriched synopses (titles fixed or not) are handed the same input, so
   * under one seeded `fit` they get the same clusters. This is a fact about
   * what the script passes to the encoder, not about K-Means itself.
   */
  lemma ClustersDependOnSynopsesOnly(a: seq<EnrichedFilm>, b: seq<EnrichedFilm>, fit: seq<string> -> seq<int>)
    requires |a| == |b| && forall i :: 0 <= i < |a| ==> a[i].synopsisEnriched == b[i].synopsisEnriched
    requires |a| >= NClusters ==> IsLabelling(fit(SynopsisColumn(a)), |a|)
    ensures |b| >= NClusters ==> IsLabelling(fit(SynopsisColumn(b)), |b|)
    ensures TrainAndSaveModel(a, fit).Some? <==> TrainAndSaveModel(b, fit).Some?
    ensures TrainAndSaveModel(a, fit).Some? ==> forall i :: 0 <= i < |a| ==>
              TrainAndSaveModel(a, fit).value[i].cluster == TrainAndSaveModel(b, fit).value[i].cluster
  {
    assert SynopsisColumn(a) == SynopsisColumn(b);
  }

  /** How a run of the training script ends. */
  datatype Run = InputMissing | TooFewRows | Clustered(movies: seq<Movie>)

  /**
   * The script's main block: a missing input file is reported; otherwise
   * the titles are fixed in place and the model is trained on a copy of
   * the fixed table. Too few rows for K-Means is an uncaught error.
   */
  method TrainingScript(input: Option<seq<EnrichedFilm>>, fit: seq<string> -> seq<int>) returns (run: Run)
    requires input.Some? && |input.value| >= NClusters ==> IsLabelling(fit(SynopsisColumn(input.value)), |input.value|)
    ensures input.None? <==> run.InputMissing?
    ensures run.TooFewRows? <==> input.Some? && |input.value| < NClusters
    ensures run.Clustered? ==> |run.movies| == |input.value| && forall i :: 0 <= i < |run.movies| ==>
              && run.movies[i].film == input.value[i].film.(titleEn := StripRankPrefix(input.value[i].film.titleEn))
              && run.movies[i].synopsisEnriched == input.value[i].synopsisEnriched
              && run.movies[i].cluster == fit(SynopsisColumn(input.value))[i]
              && 0 <= run.movies[i].cluster < NClusters
  {
    if input.None? {
      return InputMissing;
    }
    var rows := input.value;
    var frame := new EnrichedFilm[|rows|](i requires 0 <= i < |rows| => rows[i]);
    NormaliseTitles(frame);
    var fixed := frame[..];
    ClustersDependOnSynopsesOnly(rows, fixed, fit);
    var labelled := TrainAndSaveModel(fixed, fit);
    match labelled {
      case None => run := TooFewRows;
      case Some(movies) => run := Clustered(movies);
    }
  }
}
