/**
  The paged entity table's pure helpers: the column header text derived from a field
  name, the query-parameter transitions for paging, searching and sorting, the range
  of items shown, and the page links.
 */
module EntityTable {
  import opened Wrappers
  import opened Identity

  // ---------------------------------------------------------------------------
  // formatHeader
  // ---------------------------------------------------------------------------

  function CountUpper(s: string): nat {
    if s == [] then 0 else (if IsAsciiUpper(s[0]) then 1 else 0) + CountUpper(s[1..])
  }

  /** `.replace(/([A-Z])/g, " $1")`: a space before every A–Z letter. */
  function SpaceBeforeCapitals(s: string): string {
    if s == [] then []
    else (if IsAsciiUpper(s[0]) then [' ', s[0]] else [s[0]]) + SpaceBeforeCapitals(s[1..])
  }

  /** One character more per capital; a leading capital gets a space before it, anything else stays first. */
  lemma {:induction false} SpaceBeforeCapitalsShape(s: string)
    ensures |SpaceBeforeCapitals(s)| == |s| + CountUpper(s)
    ensures s != [] && IsAsciiUpper(s[0]) ==> SpaceBeforeCapitals(s)[..2] == [' ', s[0]]
    ensures s != [] && !IsAsciiUpper(s[0]) ==> SpaceBeforeCapitals(s)[0] == s[0]
  {
    if s != [] {
      SpaceBeforeCapitalsShape(s[1..]);
    }
  }

  /** The characters `.` does not match. */
  predicate IsLineTerminator(c: char) {
    c == '\n' || c == '\r' || c == '\U{2028}' || c == '\U{2029}'
  }

  function ToUpperAscii(c: char): (u: char)
    ensures IsAsciiLower(c) ==> IsAsciiUpper(u)
    ensures !IsAsciiLower(c) ==> u == c
  {
    if IsAsciiLower(c) then (c as int - 'a' as int + 'A' as int) as char else c
  }

  /** `.replace(/^./, s => s.toUpperCase())`: the first character upper-cased, unless it is a line terminator. */
  function CapitalizeFirst(s: string): (r: string)
    ensures |r| == |s|
    ensures s != [] ==> r[1..] == s[1..]
    ensures s != [] && !IsLineTerminator(s[0]) ==> r[0] == ToUpperAscii(s[0])
    ensures s != [] && IsLineTerminator(s[0]) ==> r == s
  {
    if s == [] || IsLineTerminator(s[0]) then s else [ToUpperAscii(s[0])] + s[1..]
  }

  /** formatHeader: the column header for a field name. */
  function FormatHeader(field: string): string {
    CapitalizeFirst(SpaceBeforeCapitals(field))
  }

  /** The header is one character longer than the field for every A–Z letter in it. */
  lemma FormatHeaderLength(field: string)
    ensures |FormatHeader(field)| == |field| + CountUpper(field)
  {
    SpaceBeforeCapitalsShape(field);
  }

  /** A field that already starts with a capital gets a header that starts with a space. */
  lemma CapitalFieldGainsLeadingSpace(field: string)
    requires field != [] && IsAsciiUpper(field[0])
    ensures FormatHeader(field)[0] == ' ' && FormatHeader(field)[1] == field[0]
  {
    var spaced := SpaceBeforeCapitals(field);
    SpaceBeforeCapitalsShape(field);
    assert spaced[0] == ' ' && spaced[1] == field[0];
  }

  function RemoveSpaces(s: string): string {
    if s == [] then [] else (if s[0] == ' ' then [] else [s[0]]) + RemoveSpaces(s[1..])
  }

  lemma {:induction false} RemoveSpacesAppend(a: string, b: string)
    ensures RemoveSpaces(a + b) == RemoveSpaces(a) + RemoveSpaces(b)
  {
    if a == [] {
      assert a + b == b;
    } else {
      assert (a + b)[0] == a[0];
      assert (a + b)[1..] == a[1..] + b;
      RemoveSpacesAppend(a[1..], b);
    }
  }

  /** Deleting the inserted spaces gives back a field that had none. */
  lemma {:induction false} RemoveInsertedSpaces(s: string)
    requires forall i | 0 <= i < |s| :: s[i] != ' '
    ensures RemoveSpaces(SpaceBeforeCapitals(s)) == s
  {
    if s != [] {
      var head := if IsAsciiUpper(s[0]) then [' ', s[0]] else [s[0]];
      RemoveSpacesAppend(head, SpaceBeforeCapitals(s[1..]));
      RemoveInsertedSpaces(s[1..]);
      assert RemoveSpaces(head) == [s[0]] by {
        if IsAsciiUpper(s[0]) {
          assert head[1..] == [s[0]];
        }
      }
      assert [s[0]] + s[1..] == s;
    }
  }

  /**
    The header reads as the field with its first letter capitalised, split into words
    at the capitals: deleting its spaces gives the capitalised field back.
   */
  lemma FormatHeaderWords(field: string)
    requires forall i | 0 <= i < |field| :: field[i] != ' '
    ensures RemoveSpaces(FormatHeader(field)) == CapitalizeFirst(field)
  {
    if field != [] {
      var spaced := SpaceBeforeCapitals(field);
      SpaceBeforeCapitalsShape(field);
      RemoveInsertedSpaces(field);
      if IsAsciiUpper(field[0]) {
        assert FormatHeader(field) == spaced;
        assert CapitalizeFirst(field) == field;
      } else if !IsLineTerminator(field[0]) {
        var u := ToUpperAscii(field[0]);
        assert FormatHeader(field) == [u] + spaced[1..];
        assert spaced == [field[0]] + spaced[1..];
        RemoveSpacesAppend([field[0]], spaced[1..]);
        RemoveSpacesAppend([u], spaced[1..]);
        assert RemoveSpaces(spaced[1..]) == field[1..];
      }
    }
  }

  predicate NoCapitals(s: string) {
    forall i | 0 <= i < |s| :: !IsAsciiUpper(s[i])
  }

  lemma {:induction false} SpaceBeforeCapitalsAppend(a: string, b: string)
    ensures SpaceBeforeCapitals(a + b) == SpaceBeforeCapitals(a) + SpaceBeforeCapitals(b)
  {
    if a == [] {
      assert a + b == b;
    } else {
      assert (a + b)[0] == a[0];
      assert (a + b)[1..] == a[1..] + b;
      SpaceBeforeCapitalsAppend(a[1..], b);
    }
  }

  /** A field without capitals keeps its spelling. */
  lemma {:induction false} NoCapitalsUnchanged(s: string)
    requires NoCapitals(s)
    ensures SpaceBeforeCapitals(s) == s
  {
    if s != [] {
      NoCapitalsUnchanged(s[1..]);
      assert [s[0]] + s[1..] == s;
    }
  }

  /** A word that starts with its only capital gets one space, in front. */
  lemma CapitalWordSpaced(word: string)
    requires word != [] && IsAsciiUpper(word[0]) && NoCapitals(word[1..])
    ensures SpaceBeforeCapitals(word) == " " + word
  {
    NoCapitalsUnchanged(word[1..]);
    assert word == [word[0]] + word[1..];
  }

  /** A space goes in before the second word of a two-word camelCase field, and nowhere else. */
  lemma SpacedCamelCase(first: string, second: string)
    requires NoCapitals(first)
    requires second != [] && IsAsciiUpper(second[0]) && NoCapitals(second[1..])
    ensures SpaceBeforeCapitals(first + second) == first + " " + second
  {
    calc {
      SpaceBeforeCapitals(first + second);
    == { SpaceBeforeCapitalsAppend(first, second); }
      SpaceBeforeCapitals(first) + SpaceBeforeCapitals(second);
    == { NoCapitalsUnchanged(first); CapitalWordSpaced(second); }
      first + (" " + second);
    }
    assert first + (" " + second) == first + " " + second;
  }

  /**
    A two-word camelCase field: the header is the first word capitalised, a space, and
    the second word.
   */
  lemma CamelCaseHeader(first: string, second: string)
    requires first != [] && IsAsciiLower(first[0]) && NoCapitals(first)
    requires second != [] && IsAsciiUpper(second[0]) && NoCapitals(second[1..])
    ensures FormatHeader(first + second) == [ToUpperAscii(first[0])] + first[1..] + " " + second
  {
    SpacedCamelCase(first, second);
    var spaced := first + " " + second;
    assert spaced[0] == first[0] && spaced[1..] == first[1..] + " " + second;
  }

  lemma FormatHeaderExample()
    ensures FormatHeader("createdAt") == "Created At"
  {
    var first, second := "created", "At";
    assert first + second == "createdAt";
    CamelCaseHeader(first, second);
    assert [ToUpperAscii(first[0])] + first[1..] + " " + second == "Created At";
  }

  // ---------------------------------------------------------------------------
  // Query-parameter transitions
  // ---------------------------------------------------------------------------

  datatype SortOrder = Ascending | Descending

  /** The table's query parameters (the fields the transitions touch; the spread keeps any others). */
  datatype TableQuery = TableQuery(
    pageNumber: int,
    pageSize: int,
    searchTerm: Option<string>,
    sortProperty: Option<string>,
    sortOrder: Option<SortOrder>)

  /** handlePageChange: a page outside 1..pageCount is ignored; otherwise only the page number changes. */
  function HandlePageChange(q: TableQuery, page: int, pageCount: int): (r: TableQuery)
    ensures r == q || r == q.(pageNumber := page)
    ensures r.pageNumber == page <==> 1 <= page <= pageCount || q.pageNumber == page
  {
    if page < 1 || page > pageCount then q else q.(pageNumber := page)
  }

  /** The page number stays within 1..pageCount once it is there, whatever page is asked for. */
  lemma PageChangeKeepsPageInRange(q: TableQuery, page: int, pageCount: int)
    requires 1 <= q.pageNumber <= pageCount
    ensures 1 <= HandlePageChange(q, page, pageCount).pageNumber <= pageCount
  {
  }

  /** "Previous" on the first page and "Next" on the last change nothing. */
  lemma EdgeButtonsAreInert(q: TableQuery, pageCount: int)
    ensures q.pageNumber == 1 ==> HandlePageChange(q, q.pageNumber - 1, pageCount) == q
    ensures q.pageNumber == pageCount ==> HandlePageChange(q, q.pageNumber + 1, pageCount) == q
  {
  }

  /** handleSearchConfirm: back to page 1 with the new search term; nothing else changes. */
  function HandleSearchConfirm(q: TableQuery, search: string): (r: TableQuery)
    ensures r.pageNumber == 1 && r.searchTerm == Some(search)
    ensures r.pageSize == q.pageSize && r.sortProperty == q.sortProperty && r.sortOrder == q.sortOrder
  {
    q.(pageNumber := 1, searchTerm := Some(search))
  }

  /** Confirming the same search twice is the same as confirming it once. */
  lemma SearchConfirmIdempotent(q: TableQuery, search: string)
    ensures HandleSearchConfirm(HandleSearchConfirm(q, search), search) == HandleSearchConfirm(q, search)
  {
  }

  /** The order after a click on a header: ascending unless it was ascending. */
  function Toggled(order: Option<SortOrder>): (r: SortOrder)
    ensures r == Descending <==> order == Some(Ascending)
  {
    if order == Some(Ascending) then Descending else Ascending
  }

  /** onHeaderClick: sort by the clicked field, toggling the order. */
  function OnHeaderClick(q: TableQuery, field: string): (r: TableQuery)
    ensures r.sortProperty == Some(field) && r.sortOrder.Some?
    ensures r.pageNumber == q.pageNumber && r.pageSize == q.pageSize && r.searchTerm == q.searchTerm
  {
    q.(sortProperty := Some(field), sortOrder := Some(Toggled(q.sortOrder)))
  }

  /**
    Clicking a header alternates the order: unsorted or descending gives ascending,
    ascending gives descending, and two clicks bring a set order back.
   */
  lemma HeaderClicksAlternate(q: TableQuery, field: string, other: string)
    ensures OnHeaderClick(q, field).sortOrder == Some(if q.sortOrder == Some(Ascending) then Descending else Ascending)
    ensures q.sortOrder.Some? ==> OnHeaderClick(OnHeaderClick(q, field), other).sortOrder == q.sortOrder
  {
    var once := OnHeaderClick(q, field);
    match q.sortOrder
    case None =>
    case Some(Ascending) =>
      assert once.sortOrder == Some(Descending);
    case Some(Descending) =>
      assert once.sortOrder == Some(Ascending);
  }

  // ---------------------------------------------------------------------------
  // The items shown and the page links
  // ---------------------------------------------------------------------------

  /** The 1-based index of the first item on the page. */
  function StartIdx(pageNumber: int, pageSize: int): int {
    (pageNumber - 1) * pageSize + 1
  }

  /** The 1-based index of the last item on the page (Math.min). */
  function EndIdx(pageNumber: int, pageSize: int, totalItemCount: int): (e: int)
    ensures e <= totalItemCount && e <= pageNumber * pageSize
    ensures e == totalItemCount || e == pageNumber * pageSize
  {
    if pageNumber * pageSize < totalItemCount then pageNumber * pageSize else totalItemCount
  }

  /**
    On a page that holds items, the range shown lies within 1..total and covers at
    most one page; on the last page it reaches the total.
   */
  lemma ShownRange(pageNumber: int, pageSize: int, totalItemCount: int)
    requires pageNumber >= 1 && pageSize >= 1
    requires (pageNumber - 1) * pageSize < totalItemCount
    ensures var s, e := StartIdx(pageNumber, pageSize), EndIdx(pageNumber, pageSize, totalItemCount);
      && 1 <= s <= e <= totalItemCount
      && e - s + 1 <= pageSize
      && (e - s + 1 == pageSize || e == totalItemCount)
  {
    assert (pageNumber - 1) * pageSize >= 0;
    assert pageNumber * pageSize == (pageNumber - 1) * pageSize + pageSize;
  }

  /** Consecutive pages show adjacent ranges. */
  lemma ConsecutivePagesAdjoin(pageNumber: int, pageSize: int, totalItemCount: int)
    requires pageNumber >= 1 && pageSize >= 1 && pageNumber * pageSize < totalItemCount
    ensures StartIdx(pageNumber + 1, pageSize) == EndIdx(pageNumber, pageSize, totalItemCount) + 1
  {
  }

  /** `Array.from({ length: pageCount }, (_, i) => i + 1)`. */
  function PageLinks(pageCount: int): (links: seq<int>)
    ensures |links| == if pageCount < 0 then 0 else pageCount
    ensures forall i | 0 <= i < |links| :: links[i] == i + 1
  {
    if pageCount <= 0 then [] else PageLinks(pageCount - 1) + [pageCount]
  }

  /** A page is offered as a link exactly when handlePageChange accepts it. */
  lemma PageLinksAreAcceptedPages(q: TableQuery, page: int, pageCount: int)
    ensures page in PageLinks(pageCount) <==> HandlePageChange(q, page, pageCount) == q.(pageNumber := page) && 1 <= page <= pageCount
  {
    var links := PageLinks(pageCount);
    if 1 <= page <= pageCount {
      assert links[page - 1] == page;
    }
  }
}
