/**
 * The rows of the movie table at each stage of the pipeline. A table is a
 * `seq` of rows whose position is the row's index (`df.index`), which the
 * stages never reorder: the raw table (`all_movies.csv`), the enriched table
 * (adds `sinopse_enriched`) and the clustered table (adds `Cluster`).
 */
module Dataset {

  /** A row of the raw table: `title_pt`, `title_en`, `genre`, `year`, `rating`, `sinopse`. */
  datatype Film = Film(
    titlePt: string,
    titleEn: string,
    genre: string,
    year: int,
    rating: real,
    synopsis: string)

  /** A row of the enriched table: the raw columns plus `sinopse_enriched`. */
  datatype EnrichedFilm = EnrichedFilm(film: Film, synopsisEnriched: string)

  /** A row of the clustered table: the enriched columns plus the K-Means label `Cluster`. */
  datatype Movie = Movie(film: Film, synopsisEnriched: string, cluster: int)
}
