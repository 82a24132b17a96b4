/**
 * The catalog reader, `book_info_from_table`: each row of the catalog table
 * becomes one book record, in row order.
 */
module Catalog {
  import opened Strings

  /**
   * One row of the catalog, reduced to the four columns the reader selects:
   * "Book Title", "Author", "English Package Name" and "OpenURL".
   */
  datatype Row = Row(bookTitle: string, author: string, packageName: string, openUrl: string)

  /** The record yielded for a row: the keys `title`, `author`, `pkg` and `url`. */
  datatype BookInfo = BookInfo(title: string, author: string, pkg: string, url: string)

  /**
   * The package (directory) name: spaces become `_`, then commas are
   * dropped, so neither is left.
   */
  function NormalizePackage(raw: string): (pkg: string)
    ensures ' ' !in pkg && ',' !in pkg
  {
    var underscored := ReplaceAll(raw, " ", "_");
    ReplaceCharIsTranslate(raw, ' ', '_');
    ReplaceCharByNothingIsRemove(underscored, ',');
    RemoveCharKeepsAbsent(underscored, ',', ' ');
    ReplaceAll(underscored, ",", "")
  }

  /**
   * The package name against the reference operations: a translation of
   * spaces to `_` followed by the removal of commas: every other character
   * is kept, as often as it occurs, and commas are the only ones that disappear.
   */
  lemma NormalizePackageIsTranslateThenRemove(raw: string)
    ensures NormalizePackage(raw) == RemoveChar(Translate(raw, ' ', '_'), ',')
    ensures multiset(NormalizePackage(raw)) == multiset(Translate(raw, ' ', '_'))[',' := 0]
  {
    ReplaceCharIsTranslate(raw, ' ', '_');
    ReplaceCharByNothingIsRemove(Translate(raw, ' ', '_'), ',');
  }

  /** The record for one row: title, author and URL are copied, the package normalised. */
  function BookOfRow(row: Row): BookInfo
  {
    BookInfo(row.bookTitle, row.author, NormalizePackage(row.packageName), row.openUrl)
  }

  /** `book_info_from_table(table)`: the records of the rows, one after the other. */
  function BookInfoFromTable(table: seq<Row>): (books: seq<BookInfo>)
    ensures |books| == |table|
  {
    if table == [] then []
    else [BookOfRow(table[0])] + BookInfoFromTable(table[1..])
  }

  /**
   * Exactly one record per row, in row order: title, author and URL
   * unchanged, the package name normalised, so without spaces or commas.
   */
  lemma {:induction false} BookInfoFromTableRows(table: seq<Row>)
    ensures forall i :: 0 <= i < |table| ==>
      && BookInfoFromTable(table)[i].title == table[i].bookTitle
      && BookInfoFromTable(table)[i].author == table[i].author
      && BookInfoFromTable(table)[i].url == table[i].openUrl
      && BookInfoFromTable(table)[i].pkg == NormalizePackage(table[i].packageName)
      && ' ' !in BookInfoFromTable(table)[i].pkg && ',' !in BookInfoFromTable(table)[i].pkg
  {
    if table != [] {
      BookInfoFromTableRows(table[1..]);
      var books := BookInfoFromTable(table);
      forall i | 1 <= i < |table|
        ensures books[i] == BookInfoFromTable(table[1..])[i - 1] && table[i] == table[1..][i - 1]
      {
      }
    }
  }

  /**
   * The reader works row by row: reading two tables one after the other
   * gives the records of their concatenation.
   */
  lemma {:induction false} BookInfoFromTableAppend(t1: seq<Row>, t2: seq<Row>)
    ensures BookInfoFromTable(t1 + t2) == BookInfoFromTable(t1) + BookInfoFromTable(t2)
  {
    if t1 == [] {
      assert t1 + t2 == t2;
    } else {
      assert (t1 + t2)[0] == t1[0] && (t1 + t2)[1..] == t1[1..] + t2;
      BookInfoFromTableAppend(t1[1..], t2);
    }
  }
}
