/**
  The book library's read side: `getBooks` turns the folders of the books
  directory into `Book` records and filters them by a search term, and
  `getBook` looks one up by id.  The file system is a snapshot taken
  before the call: the directory listing and what `getInfoAsync` reports
  for each path.
 */
module BookService {
  import opened Options
  import opened JsString

  /** `BOOKS_DIRECTORY_NAME`: the library's folder under the app's document directory. */
  const BooksDirectoryName: string := "Doculearn"

  /** `booksDirUri`: the library folder, with a trailing slash. */
  function BooksDirUri(documentDirectory: string): string
  {
    documentDirectory + BooksDirectoryName + "/"
  }

  /** What `getInfoAsync` reports for a path, or `Unreadable` when the call is rejected. */
  datatype FileInfo = FileInfo(present: bool, isDirectory: bool) | Unreadable

  /**
    The file system as `getBooks` sees it: the names `readDirectoryAsync`
    lists for the books directory (`None` when that call is rejected), and
    the report for each path; a path without an entry does not exist.
   */
  datatype FileSystem = FileSystem(listing: Option<seq<string>>, entries: map<string, FileInfo>)

  function GetInfo(fs: FileSystem, uri: string): FileInfo
  {
    if uri in fs.entries then fs.entries[uri] else FileInfo(false, false)
  }

  /** The path exists and is a regular file. */
  predicate IsFile(info: FileInfo)
  {
    info.FileInfo? && info.present && !info.isDirectory
  }

  /** A book of the library; `coverUri` is absent when the folder has no cover image. */
  datatype Book = Book(id: string, name: string, pdfUri: string, coverUri: Option<string>)

  function FolderUri(booksDir: string, folderName: string): string
  {
    booksDir + folderName + "/"
  }

  function PdfUri(booksDir: string, folderName: string): string
  {
    FolderUri(booksDir, folderName) + "doc.pdf"
  }

  function CoverUri(booksDir: string, folderName: string): string
  {
    FolderUri(booksDir, folderName) + "cover.jpg"
  }

  /** A folder holds a book: it is a directory and its `doc.pdf` is a regular file. */
  predicate Qualifies(booksDir: string, fs: FileSystem, folderName: string)
  {
    var folderInfo := GetInfo(fs, FolderUri(booksDir, folderName));
    folderInfo.FileInfo? && folderInfo.isDirectory && IsFile(GetInfo(fs, PdfUri(booksDir, folderName)))
  }

  /** The books directory is the `Doculearn/` directory inside the documents directory. */
  lemma BooksDirUnderDocuments(documentDirectory: string)
    ensures var booksDir := BooksDirUri(documentDirectory);
            |booksDir| == |documentDirectory| + |BooksDirectoryName| + 1
            && booksDir[..|documentDirectory|] == documentDirectory
            && booksDir[|documentDirectory|..] == BooksDirectoryName + "/"
  {
  }

  /** Two folder names give the same folder path only when they are the same name. */
  lemma {:induction false} FolderUriInjective(booksDir: string, a: string, b: string)
    ensures FolderUri(booksDir, a) == FolderUri(booksDir, b) <==> a == b
  {
    if FolderUri(booksDir, a) == FolderUri(booksDir, b) {
      var u := FolderUri(booksDir, a);
      assert |a| == |b|;
      assert a == u[|booksDir|..|booksDir| + |a|];
      assert b == u[|booksDir|..|booksDir| + |b|];
    }
  }

  /**
    The three paths probed for a folder are pairwise different, and the
    `doc.pdf` and `cover.jpg` paths lie inside the folder path.
   */
  lemma ProbeUrisDistinct(booksDir: string, folderName: string)
    ensures var folder := FolderUri(booksDir, folderName);
            var pdf := PdfUri(booksDir, folderName);
            var cover := CoverUri(booksDir, folderName);
            && folder <= pdf && folder <= cover
            && folder != pdf && folder != cover && pdf != cover
  {
  }

  /**
    A folder whose directory or `doc.pdf` is absent from the snapshot never
    qualifies: `getInfoAsync` reports such a path as not existing.
   */
  lemma QualifyingPathsExist(booksDir: string, fs: FileSystem, folderName: string)
    ensures Qualifies(booksDir, fs, folderName)
            ==> FolderUri(booksDir, folderName) in fs.entries && PdfUri(booksDir, folderName) in fs.entries
  {
  }

  /**
    The book `getBooks` builds for folder `b.name`: its id and name are the
    folder name, its PDF is the folder's `doc.pdf`, and its cover is the
    folder's `cover.jpg` exactly when that is a regular file.
   */
  ghost predicate WellFormedBook(booksDir: string, fs: FileSystem, b: Book)
  {
    && b.id == b.name
    && Qualifies(booksDir, fs, b.name)
    && b.pdfUri == PdfUri(booksDir, b.name)
    && b.coverUri == (if IsFile(GetInfo(fs, CoverUri(booksDir, b.name))) then Some(CoverUri(booksDir, b.name)) else None)
  }

  /**
    One of the probes the collection loop makes for this folder is rejected:
    the folder itself, its `doc.pdf` once the folder is a directory, or its
    `cover.jpg` once the folder qualifies.
   */
  predicate ProbeRejected(booksDir: string, fs: FileSystem, folderName: string)
  {
    var folderInfo := GetInfo(fs, FolderUri(booksDir, folderName));
    || folderInfo.Unreadable?
    || (folderInfo.FileInfo? && folderInfo.isDirectory && GetInfo(fs, PdfUri(booksDir, folderName)).Unreadable?)
    || (Qualifies(booksDir, fs, folderName) && GetInfo(fs, CoverUri(booksDir, folderName)).Unreadable?)
  }

  /** What one pass of the collection loop does with a folder. */
  datatype FolderOutcome = Skipped | Added(book: Book) | Failed

  /**
    One pass of the collection loop: a probe that is rejected fails the whole
    listing; a folder that is not a directory, or whose `doc.pdf` is missing
    or a directory, is skipped; otherwise its book is added.
   */
  function InspectFolder(booksDir: string, fs: FileSystem, folderName: string): (r: FolderOutcome)
    ensures r.Added? ==> r.book.name == folderName && WellFormedBook(booksDir, fs, r.book)
    ensures r.Added? <==> Qualifies(booksDir, fs, folderName) && !GetInfo(fs, CoverUri(booksDir, folderName)).Unreadable?
    ensures r.Failed? <==> ProbeRejected(booksDir, fs, folderName)
    ensures r.Skipped? <==> !Qualifies(booksDir, fs, folderName) && !ProbeRejected(booksDir, fs, folderName)
  {
    var folderInfo := GetInfo(fs, FolderUri(booksDir, folderName));
    if folderInfo.Unreadable? then Failed
    else if !folderInfo.isDirectory then Skipped
    else
      var pdfUri := PdfUri(booksDir, folderName);
      var pdfInfo := GetInfo(fs, pdfUri);
      if pdfInfo.Unreadable? then Failed
      else if !(pdfInfo.present && !pdfInfo.isDirectory) then Skipped
      else
        var coverUri := CoverUri(booksDir, folderName);
        var coverInfo := GetInfo(fs, coverUri);
        if coverInfo.Unreadable? then Failed
        else Added(Book(folderName, folderName, pdfUri,
                        if coverInfo.present && !coverInfo.isDirectory then Some(coverUri) else None))
  }

  /**
    The books the collection loop gathers from `folderNames`, in listing
    order, or `None` when a probe on one of the folders is rejected.
   */
  function Collect(booksDir: string, fs: FileSystem, folderNames: seq<string>): (r: Option<seq<Book>>)
    ensures r.None? <==> exists k :: 0 <= k < |folderNames| && InspectFolder(booksDir, fs, folderNames[k]).Failed?
    ensures r.Some? ==> |r.value| <= |folderNames|
    ensures r.Some? ==> forall k :: 0 <= k < |r.value| ==>
              r.value[k].name in folderNames && WellFormedBook(booksDir, fs, r.value[k])
  {
    if folderNames == [] then Some([])
    else
      var init := folderNames[..|folderNames| - 1];
      var last := folderNames[|folderNames| - 1];
      assert forall k :: 0 <= k < |init| ==> init[k] == folderNames[k];
      match Collect(booksDir, fs, init)
      case None =>
        None
      case Some(books) =>
        match InspectFolder(booksDir, fs, last)
        case Failed => None
        case Skipped => Some(books)
        case Added(book) => Some(books + [book])
  }

  /** Collecting from two listings one after the other is collecting from their concatenation. */
  lemma {:induction false} CollectAppend(booksDir: string, fs: FileSystem, a: seq<string>, b: seq<string>)
    ensures Collect(booksDir, fs, a + b).Some? <==> Collect(booksDir, fs, a).Some? && Collect(booksDir, fs, b).Some?
    ensures Collect(booksDir, fs, a + b).Some? ==>
              Collect(booksDir, fs, a + b).value == Collect(booksDir, fs, a).value + Collect(booksDir, fs, b).value
    decreases |b|
  {
    if b == [] {
      assert a + b == a;
    } else {
      var b' := b[..|b| - 1];
      assert (a + b)[..|a + b| - 1] == a + b';
      assert (a + b)[|a + b| - 1] == b[|b| - 1];
      CollectAppend(booksDir, fs, a, b');
    }
  }

  /** Every qualifying folder of a listing with no rejected probe yields a book with its name. */
  lemma {:induction false} CollectComplete(booksDir: string, fs: FileSystem, folderNames: seq<string>, k: int)
    requires Collect(booksDir, fs, folderNames).Some?
    requires 0 <= k < |folderNames| && Qualifies(booksDir, fs, folderNames[k])
    ensures exists j :: 0 <= j < |Collect(booksDir, fs, folderNames).value|
                        && Collect(booksDir, fs, folderNames).value[j].name == folderNames[k]
  {
    var init := folderNames[..|folderNames| - 1];
    var books := Collect(booksDir, fs, folderNames).value;
    if k == |folderNames| - 1 {
      var outcome := InspectFolder(booksDir, fs, folderNames[k]);
      assert outcome.Added?;
      assert books[|books| - 1] == outcome.book;
    } else {
      assert init[k] == folderNames[k];
      CollectComplete(booksDir, fs, init, k);
      var j :| 0 <= j < |Collect(booksDir, fs, init).value| && Collect(booksDir, fs, init).value[j].name == folderNames[k];
      assert books[j] == Collect(booksDir, fs, init).value[j];
    }
  }

  /** The book's lowercased name contains the lowercased search text. */
  predicate NameMatches(book: Book, term: string)
  {
    Includes(ToLower(book.name), term)
  }

  /** The books whose name matches `term`, in their original order. */
  function FilterByName(books: seq<Book>, term: string): (r: seq<Book>)
    ensures |r| <= |books|
    ensures forall b :: b in r <==> b in books && NameMatches(b, term)
  {
    if books == [] then []
    else
      var init := books[..|books| - 1];
      var last := books[|books| - 1];
      assert books == init + [last];
      FilterByName(init, term) + (if NameMatches(last, term) then [last] else [])
  }

  /** Filtering distributes over concatenation: it never reorders books. */
  lemma {:induction false} FilterByNameAppend(a: seq<Book>, b: seq<Book>, term: string)
    ensures FilterByName(a + b, term) == FilterByName(a, term) + FilterByName(b, term)
    decreases |b|
  {
    if b == [] {
      assert a + b == a;
    } else {
      var b' := b[..|b| - 1];
      assert (a + b)[..|a + b| - 1] == a + b';
      assert (a + b)[|a + b| - 1] == b[|b| - 1];
      FilterByNameAppend(a, b', term);
    }
  }

  /** The search text is missing, or only whitespace. */
  predicate IsBlankSearch(searchTerm: Option<string>)
  {
    searchTerm.None? || Trim(searchTerm.value) == []
  }

  /** A search term is blank exactly when it is missing or made only of whitespace. */
  lemma BlankSearchIsWhitespace(searchTerm: Option<string>)
    ensures IsBlankSearch(searchTerm) <==> searchTerm.None? || AllWhitespace(searchTerm.value)
  {
  }

  /**
    The search step of `getBooks`: a blank term keeps every book; otherwise
    the books whose lowercased name contains the trimmed, lowercased term.
   */
  function Search(books: seq<Book>, searchTerm: Option<string>): (r: seq<Book>)
    ensures IsBlankSearch(searchTerm) ==> r == books
    ensures !IsBlankSearch(searchTerm) ==>
              forall b :: b in r <==> b in books && Includes(ToLower(b.name), ToLower(Trim(searchTerm.value)))
    ensures |r| <= |books|
  {
    if searchTerm.Some? && Trim(searchTerm.value) != [] then
      FilterByName(books, ToLower(Trim(searchTerm.value)))
    else
      books
  }

  /** What `getBooks(searchTerm)` resolves to for the file system `fs`. */
  function GetBooksResult(documentDirectory: string, fs: FileSystem, searchTerm: Option<string>): (r: seq<Book>)
    ensures fs.listing.None? ==> r == []
    ensures fs.listing.Some? &&
            (exists k :: 0 <= k < |fs.listing.value| && InspectFolder(BooksDirUri(documentDirectory), fs, fs.listing.value[k]).Failed?)
            ==> r == []
    ensures forall k :: 0 <= k < |r| ==>
              fs.listing.Some? && r[k].name in fs.listing.value && WellFormedBook(BooksDirUri(documentDirectory), fs, r[k])
  {
    match fs.listing
    case None => []
    case Some(folderNames) =>
      match Collect(BooksDirUri(documentDirectory), fs, folderNames)
      case None => []
      case Some(books) =>
        var r := Search(books, searchTerm);
        assert forall k :: 0 <= k < |r| ==> r[k] in books;
        r
  }

  /** A book the search returns comes from a qualifying folder whose name matches the term. */
  lemma SearchResultQualifies(booksDir: string, fs: FileSystem, names: seq<string>, books: seq<Book>,
                              searchTerm: Option<string>, folderName: string)
    requires Collect(booksDir, fs, names) == Some(books)
    ensures var r := Search(books, searchTerm);
            (exists j :: 0 <= j < |r| && r[j].name == folderName)
            ==> Qualifies(booksDir, fs, folderName)
                && (IsBlankSearch(searchTerm) || Includes(ToLower(folderName), ToLower(Trim(searchTerm.value))))
  {
    var r := Search(books, searchTerm);
    if j :| 0 <= j < |r| && r[j].name == folderName {
      assert r[j] in books;
      var i :| 0 <= i < |books| && books[i] == r[j];
      assert WellFormedBook(booksDir, fs, books[i]);
    }
  }

  /** A listed qualifying folder whose name matches the term has a book among the search results. */
  lemma QualifyingFolderFound(booksDir: string, fs: FileSystem, names: seq<string>, books: seq<Book>,
                              searchTerm: Option<string>, folderName: string)
    requires Collect(booksDir, fs, names) == Some(books)
    requires folderName in names
    requires Qualifies(booksDir, fs, folderName)
    requires IsBlankSearch(searchTerm) || Includes(ToLower(folderName), ToLower(Trim(searchTerm.value)))
    ensures var r := Search(books, searchTerm);
            exists j :: 0 <= j < |r| && r[j].name == folderName
  {
    var k :| 0 <= k < |names| && names[k] == folderName;
    CollectComplete(booksDir, fs, names, k);
    var i :| 0 <= i < |books| && books[i].name == folderName;
    var r := Search(books, searchTerm);
    assert books[i] in r;
    var j :| 0 <= j < |r| && r[j] == books[i];
    assert r[j].name == folderName;
  }

  /**
    When the listing is read and no probe is rejected, a listed folder has a
    book among the results of `getBooks(searchTerm)` exactly when it
    qualifies and the term is blank or the folder name matches it.
   */
  lemma GetBooksResultContents(documentDirectory: string, fs: FileSystem, searchTerm: Option<string>, folderName: string)
    requires fs.listing.Some? && Collect(BooksDirUri(documentDirectory), fs, fs.listing.value).Some?
    requires folderName in fs.listing.value
    ensures var r := GetBooksResult(documentDirectory, fs, searchTerm);
            (exists j :: 0 <= j < |r| && r[j].name == folderName)
            <==> Qualifies(BooksDirUri(documentDirectory), fs, folderName)
                 && (IsBlankSearch(searchTerm) || Includes(ToLower(folderName), ToLower(Trim(searchTerm.value))))
  {
    var booksDir := BooksDirUri(documentDirectory);
    var names := fs.listing.value;
    var books := Collect(booksDir, fs, names).value;
    assert GetBooksResult(documentDirectory, fs, searchTerm) == Search(books, searchTerm);
    SearchResultQualifies(booksDir, fs, names, books, searchTerm, folderName);
    if Qualifies(booksDir, fs, folderName)
       && (IsBlankSearch(searchTerm) || Includes(ToLower(folderName), ToLower(Trim(searchTerm.value)))) {
      QualifyingFolderFound(booksDir, fs, names, books, searchTerm, folderName);
    }
  }

  /**
    `getBooks`: walks the listing, keeps each folder that is a directory with
    a regular `doc.pdf`, attaches `cover.jpg` when it is a regular file, then
    applies the search.  Any rejected probe gives the empty list.
   */
  method GetBooks(documentDirectory: string, fs: FileSystem, searchTerm: Option<string>) returns (result: seq<Book>)
    ensures result == GetBooksResult(documentDirectory, fs, searchTerm)
  {
    var booksDirUri := BooksDirUri(documentDirectory);
    if fs.listing.None? {
      return [];
    }
    var bookFolderNames := fs.listing.value;
    var books: seq<Book> := [];
    for i := 0 to |bookFolderNames|
      invariant Collect(booksDirUri, fs, bookFolderNames[..i]) == Some(books)
    {
      var folderName := bookFolderNames[i];
      assert bookFolderNames[..i + 1][..i] == bookFolderNames[..i];
      var bookFolderUri := booksDirUri + folderName + "/";
      var folderInfo := GetInfo(fs, bookFolderUri);
      if folderInfo.Unreadable? {
        return [];
      }
      if !folderInfo.isDirectory {
        continue;
      }
      var pdfUri := bookFolderUri + "doc.pdf";
      var pdfInfo := GetInfo(fs, pdfUri);
      if pdfInfo.Unreadable? {
        return [];
      }
      if pdfInfo.present && !pdfInfo.isDirectory {
        var book := Book(folderName, folderName, pdfUri, None);
        var coverUri := bookFolderUri + "cover.jpg";
        var coverInfo := GetInfo(fs, coverUri);
        if coverInfo.Unreadable? {
          return [];
        }
        if coverInfo.present && !coverInfo.isDirectory {
          book := book.(coverUri := Some(coverUri));
        }
        books := books + [book];
      }
    }
    assert bookFolderNames[..|bookFolderNames|] == bookFolderNames;
    result := Search(books, searchTerm);
  }

  /** `books[k]` is the first book whose id is `id`. */
  ghost predicate IsFirstWithId(books: seq<Book>, id: string, k: int)
  {
    0 <= k < |books| && books[k].id == id && forall j :: 0 <= j < k ==> books[j].id != id
  }

  /** `Array.prototype.find` on the id: the first book with that id, if any. */
  function FindBook(books: seq<Book>, id: string): (r: Option<Book>)
    ensures r.None? <==> forall k :: 0 <= k < |books| ==> books[k].id != id
    ensures r.Some? ==> exists k :: IsFirstWithId(books, id, k) && books[k] == r.value
  {
    if books == [] then None
    else if books[0].id == id then
      assert IsFirstWithId(books, id, 0);
      Some(books[0])
    else
      var r := FindBook(books[1..], id);
      assert r.Some? ==> exists k :: IsFirstWithId(books, id, k) && books[k] == r.value by {
        if r.Some? {
          var k :| IsFirstWithId(books[1..], id, k) && books[1..][k] == r.value;
          assert IsFirstWithId(books, id, k + 1);
        }
      }
      assert r.None? ==> forall k :: 0 <= k < |books| ==> books[k].id != id by {
        if r.None? {
          forall k | 0 <= k < |books| ensures books[k].id != id {
            if k > 0 { assert books[k] == books[1..][k - 1]; }
          }
        }
      }
      r
  }

  /** `getBook`: the first book of the unfiltered library whose id is `id`. */
  method GetBook(documentDirectory: string, fs: FileSystem, id: string) returns (book: Option<Book>)
    ensures book == FindBook(GetBooksResult(documentDirectory, fs, None), id)
    ensures book.Some? ==> book.value.id == id
  {
    var allBooks := GetBooks(documentDirectory, fs, None);
    book := FindBook(allBooks, id);
  }

  /**
    When the library reads without a rejected probe, `getBook(id)` finds a
    book exactly when folder `id` is listed and qualifies, and it is the
    book built from that folder.
   */
  lemma GetBookFindsFolder(documentDirectory: string, fs: FileSystem, id: string)
    requires fs.listing.Some? && Collect(BooksDirUri(documentDirectory), fs, fs.listing.value).Some?
    ensures var r := FindBook(GetBooksResult(documentDirectory, fs, None), id);
            && (r.Some? <==> id in fs.listing.value && Qualifies(BooksDirUri(documentDirectory), fs, id))
            && (r.Some? ==> r.value.name == id && WellFormedBook(BooksDirUri(documentDirectory), fs, r.value))
  {
    var booksDir := BooksDirUri(documentDirectory);
    var names := fs.listing.value;
    var books := GetBooksResult(documentDirectory, fs, None);
    if id in names && Qualifies(booksDir, fs, id) {
      var k :| 0 <= k < |names| && names[k] == id;
      CollectComplete(booksDir, fs, names, k);
    }
  }
}
