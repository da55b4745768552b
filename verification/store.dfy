/** The `news_articles` table (dailynews-next/lib/db.ts), reduced to what the
    crawl route and the import script do with it: a table of articles keyed by
    their `YYYYMMDD` date (the `UNIQUE` column), with an existence check, an
    upsert and a plain insert. */
module NewsStore {
  import opened Common

  /** One row, without the generated `id` and timestamps. */
  datatype Article = Article(abstractText: string, content: string, newsCount: int)

  const DuplicateKeyMessage: string := "duplicate key value violates unique constraint"

  class Table {
    var rows: map<string, Article>

    constructor ()
      ensures rows == map[]
    {
      rows := map[];
    }

    /** `checkDateExists`. */
    function Exists(date: string): (b: bool)
      reads this
      ensures b <==> date in rows
    {
      date in rows
    }

    /** `saveNewsArticle`: `INSERT … ON CONFLICT (date) DO UPDATE`. The row for
        `date` is inserted or overwritten and every other row stays as it was. */
    method Save(date: string, abstractText: string, content: string, newsCount: int) returns (saved: Article)
      modifies this
      ensures saved == Article(abstractText, content, newsCount)
      ensures rows == old(rows)[date := saved]
    {
      saved := Article(abstractText, content, newsCount);
      rows := rows[date := saved];
    }

    /** A plain `INSERT`: refused, with nothing changed, when the date is taken. */
    method Insert(date: string, abstractText: string, content: string, newsCount: int) returns (r: Result<Article>)
      modifies this
      ensures r.Ok? <==> date !in old(rows)
      ensures r.Ok? ==>
        r.value == Article(abstractText, content, newsCount)
        && rows == old(rows)[date := r.value]
      ensures r.Err? ==> r.message == DuplicateKeyMessage && rows == old(rows)
    {
      if date in rows {
        return Err(DuplicateKeyMessage);
      }
      var row := Article(abstractText, content, newsCount);
      rows := rows[date := row];
      r := Ok(row);
    }
  }
}
