/** The translation-table compiler of scripts/convert-translations.ts: the
    parsed CSV (header fields and rows of cells) becomes one nested message
    document per language column, each named `<language>.json`. */
module ConvertTranslations {
  import opened Results
  import opened KeyPaths
  import opened MessageTree

  /** The header of the column that holds the dotted message keys. */
  const KeyColumn: string := "key"

  /** The file name extension of every generated document. */
  const Extension: string := ".json"

  /** One parsed CSV row: column header to cell text. A cell the row does
      not have (a short row) is a missing entry. */
  type Row = map<string, string>

  /** The documents under construction: language to its root object. */
  type Docs = map<string, map<string, Tree>>

  /** What the CSV parser hands over: its error messages, the header
      fields when it found a header, and the data rows in file order. */
  datatype ParseResult = ParseResult(errors: seq<string>, fields: Option<seq<string>>, data: seq<Row>)

  /** The two fatal outcomes, each of which ends the run with exit code 1. */
  datatype CompileError = ParseErrors(messages: seq<string>) | NoLanguageColumns

  /** One generated file: its name and the document it holds. */
  datatype OutputFile = OutputFile(name: string, document: Tree)

  /** A successful run: the languages found, their documents and the files
      to write, in language order. */
  datatype Output = Output(languages: seq<string>, translations: Docs, files: seq<OutputFile>)

  /** The header fields, or none when the parser reported no header. */
  function Headers(parsed: ParseResult): (headers: seq<string>) {
    if parsed.fields.Some? then parsed.fields.value else []
  }

  /** The language columns: every header field except the key column,
      in header order (duplicates kept, as a filter keeps them). */
  function Languages(headers: seq<string>): (langs: seq<string>)
    ensures forall x :: x in langs <==> x in headers && x != KeyColumn
    ensures forall x :: multiset(langs)[x] == if x == KeyColumn then 0 else multiset(headers)[x]
    ensures KeyColumn !in headers ==> langs == headers
    decreases |headers|
  {
    if headers == [] then []
    else
      var init, last := headers[..|headers| - 1], headers[|headers| - 1];
      assert headers == init + [last];
      if last != KeyColumn then Languages(init) + [last] else Languages(init)
  }

  /** The filter distributes over concatenation, so languages keep the
      relative order of their header fields. */
  lemma {:induction false} LanguagesAppend(a: seq<string>, b: seq<string>)
    ensures Languages(a + b) == Languages(a) + Languages(b)
    decreases |b|
  {
    if b == [] {
      assert a + b == a;
    } else {
      var init := b[..|b| - 1];
      LanguagesAppend(a, init);
      assert (a + b)[..|a + b| - 1] == a + init;
      assert (a + b)[|a + b| - 1] == b[|b| - 1];
    }
  }

  /** Every language has a document. */
  predicate Covers(docs: Docs, langs: seq<string>) {
    forall l :: l in langs ==> l in docs
  }

  /** The documents before any row is read: one empty object per language. */
  function EmptyDocs(langs: seq<string>): (docs: Docs)
    ensures Covers(docs, langs)
    ensures docs.Keys == set l | l in langs
    ensures forall l :: l in docs ==> docs[l] == map[]
  {
    map l | l in langs :: map[]
  }

  /** The row has a key: a key cell that is present and non-empty. */
  predicate HasKey(row: Row) {
    KeyColumn in row && row[KeyColumn] != ""
  }

  /** The row has a translation for `lang`: a present, non-empty cell. */
  predicate HasValue(row: Row, lang: string) {
    lang in row && row[lang] != ""
  }

  /** The row writes a translation into `lang`'s document. */
  predicate Writes(row: Row, lang: string) {
    HasKey(row) && HasValue(row, lang)
  }

  /** The step for one (row, language) pair: a present, non-empty cell is
      written at the key's path; otherwise nothing changes. */
  function ApplyCell(docs: Docs, key: string, row: Row, lang: string): (r: Docs)
    requires lang in docs
    ensures r.Keys == docs.Keys
    ensures forall other :: other in docs && other != lang ==> r[other] == docs[other]
    ensures HasValue(row, lang) ==> Lookup(Node(r[lang]), Split(key)) == Some(Leaf(row[lang]))
    ensures !HasValue(row, lang) ==> r == docs
  {
    if HasValue(row, lang) then
      SetInFound(docs[lang], Split(key), row[lang]);
      docs[lang := SetIn(docs[lang], Split(key), row[lang])]
    else docs
  }

  /** The cells of one keyed row, taken in language order. */
  function ApplyCells(docs: Docs, key: string, row: Row, langs: seq<string>): (r: Docs)
    requires Covers(docs, langs)
    ensures r.Keys == docs.Keys
    ensures forall l :: l in docs && l !in langs ==> r[l] == docs[l]
    ensures (forall l :: l in langs ==> !HasValue(row, l)) ==> r == docs
    decreases |langs|
  {
    if langs == [] then docs
    else ApplyCell(ApplyCells(docs, key, row, langs[..|langs| - 1]), key, row, langs[|langs| - 1])
  }

  /** The step for one row: a row without a key is skipped whole. */
  function ApplyRow(docs: Docs, langs: seq<string>, row: Row): (r: Docs)
    requires Covers(docs, langs)
    ensures r.Keys == docs.Keys
    ensures forall l :: l in docs && l !in langs ==> r[l] == docs[l]
    ensures !HasKey(row) ==> r == docs
  {
    if HasKey(row) then ApplyCells(docs, row[KeyColumn], row, langs) else docs
  }

  /** All rows, taken in input order. */
  function Populate(docs: Docs, langs: seq<string>, rows: seq<Row>): (r: Docs)
    requires Covers(docs, langs)
    ensures r.Keys == docs.Keys
    ensures forall l :: l in docs && l !in langs ==> r[l] == docs[l]
    ensures (forall i :: 0 <= i < |rows| ==> !HasKey(rows[i])) ==> r == docs
    decreases |rows|
  {
    if rows == [] then docs
    else ApplyRow(Populate(docs, langs, rows[..|rows| - 1]), langs, rows[|rows| - 1])
  }

  /** What the cells of one row do to one language's document, whatever
      the other languages hold and however often the language is listed:
      the document gets the value at the key's path when its cell is
      filled, and stays as it was otherwise. */
  lemma {:induction false} ApplyCellsAt(docs: Docs, key: string, row: Row, langs: seq<string>, lang: string)
    requires Covers(docs, langs) && lang in docs
    ensures ApplyCells(docs, key, row, langs)[lang]
         == if lang in langs && HasValue(row, lang) then SetIn(docs[lang], Split(key), row[lang]) else docs[lang]
    decreases |langs|
  {
    if langs != [] {
      var init, last := langs[..|langs| - 1], langs[|langs| - 1];
      assert langs == init + [last];
      ApplyCellsAt(docs, key, row, init, lang);
      if last == lang && HasValue(row, lang) && lang in init {
        SetInOverwrite(docs[lang], Split(key), row[lang], row[lang]);
      }
    }
  }

  /** What one row does to one language's document: a row without a key
      leaves every document as it was; otherwise a language whose cell is
      empty or missing keeps its document, and a language whose cell is
      filled gets the value written at the key's split path, independently
      of the other languages of the row. */
  lemma ApplyRowAt(docs: Docs, langs: seq<string>, row: Row, lang: string)
    requires Covers(docs, langs) && lang in docs
    ensures ApplyRow(docs, langs, row)[lang]
         == if lang in langs && Writes(row, lang) then SetIn(docs[lang], Split(row[KeyColumn]), row[lang]) else docs[lang]
  {
    if HasKey(row) {
      ApplyCellsAt(docs, row[KeyColumn], row, langs, lang);
    }
  }

  /** The rows that have a key, in their original order. */
  function KeyedRows(rows: seq<Row>): (keyed: seq<Row>)
    ensures forall i :: 0 <= i < |keyed| ==> HasKey(keyed[i])
    ensures forall row :: row in keyed <==> row in rows && HasKey(row)
    ensures |keyed| <= |rows|
    decreases |rows|
  {
    if rows == [] then []
    else
      var init, last := rows[..|rows| - 1], rows[|rows| - 1];
      assert rows == init + [last];
      if HasKey(last) then KeyedRows(init) + [last] else KeyedRows(init)
  }

  /** The filter distributes over concatenation, so the keyed rows keep
      their input order. */
  lemma {:induction false} KeyedRowsAppend(a: seq<Row>, b: seq<Row>)
    ensures KeyedRows(a + b) == KeyedRows(a) + KeyedRows(b)
    decreases |b|
  {
    if b == [] {
      assert a + b == a;
    } else {
      var init := b[..|b| - 1];
      KeyedRowsAppend(a, init);
      assert (a + b)[..|a + b| - 1] == a + init;
      assert (a + b)[|a + b| - 1] == b[|b| - 1];
    }
  }

  /** Rows without a key contribute nothing: dropping all of them gives
      the same documents. */
  lemma {:induction false} KeylessRowsIgnored(docs: Docs, langs: seq<string>, rows: seq<Row>)
    requires Covers(docs, langs)
    ensures Populate(docs, langs, rows) == Populate(docs, langs, KeyedRows(rows))
    decreases |rows|
  {
    if rows != [] {
      var init, last := rows[..|rows| - 1], rows[|rows| - 1];
      KeylessRowsIgnored(docs, langs, init);
      var before := Populate(docs, langs, init);
      assert Populate(docs, langs, rows) == ApplyRow(before, langs, last);
      if HasKey(last) {
        var keyed := KeyedRows(init) + [last];
        assert KeyedRows(rows) == keyed;
        assert keyed[..|keyed| - 1] == KeyedRows(init);
      } else {
        assert KeyedRows(rows) == KeyedRows(init);
      }
    }
  }

  /** Later rows win: a value written for `lang` by row `j` is what the
      finished document holds at row `j`'s key path, as long as no later
      row writes `lang` at a path that is a prefix or an extension of it.
      In particular a later row with the same key replaces the earlier
      row's value. */
  lemma {:induction false} LastWriteWins(docs: Docs, langs: seq<string>, rows: seq<Row>, lang: string, j: nat)
    requires Covers(docs, langs) && lang in langs
    requires j < |rows| && Writes(rows[j], lang)
    requires forall i :: j < i < |rows| && Writes(rows[i], lang) ==>
               Diverge(Split(rows[i][KeyColumn]), Split(rows[j][KeyColumn]))
    ensures Lookup(Node(Populate(docs, langs, rows)[lang]), Split(rows[j][KeyColumn])) == Some(Leaf(rows[j][lang]))
    decreases |rows|
  {
    var init, last := rows[..|rows| - 1], rows[|rows| - 1];
    var prev := Populate(docs, langs, init);
    var p := Split(rows[j][KeyColumn]);
    ApplyRowAt(prev, langs, last, lang);
    if j == |rows| - 1 {
      SetInFound(prev[lang], p, rows[j][lang]);
    } else {
      assert init[j] == rows[j];
      assert forall i :: j < i < |init| ==> init[i] == rows[i];
      LastWriteWins(docs, langs, init, lang, j);
      if Writes(last, lang) {
        SetInDiverging(prev[lang], Split(last[KeyColumn]), p, last[lang]);
      }
    }
  }

  /** Nothing is invented: every string in a finished document was either
      there at the start or is the value of some row that writes that
      language at exactly that key path. */
  lemma {:induction false} PopulateLeaves(docs: Docs, langs: seq<string>, rows: seq<Row>, lang: string, q: seq<string>, w: string)
    requires Covers(docs, langs) && lang in docs
    requires Lookup(Node(Populate(docs, langs, rows)[lang]), q) == Some(Leaf(w))
    ensures || Lookup(Node(docs[lang]), q) == Some(Leaf(w))
            || (lang in langs &&
                exists i :: 0 <= i < |rows| && Writes(rows[i], lang) && Split(rows[i][KeyColumn]) == q && rows[i][lang] == w)
    decreases |rows|
  {
    if rows != [] {
      var init, last := rows[..|rows| - 1], rows[|rows| - 1];
      var prev := Populate(docs, langs, init);
      ApplyRowAt(prev, langs, last, lang);
      if lang in langs && Writes(last, lang) {
        SetInLeaves(prev[lang], Split(last[KeyColumn]), last[lang], q, w);
      }
      if Lookup(Node(prev[lang]), q) == Some(Leaf(w)) {
        PopulateLeaves(docs, langs, init, lang, q, w);
        if Lookup(Node(docs[lang]), q) != Some(Leaf(w)) {
          var i :| 0 <= i < |init| && Writes(init[i], lang) && Split(init[i][KeyColumn]) == q && init[i][lang] == w;
          assert rows[i] == init[i];
        }
      } else {
        assert rows[|rows| - 1] == last;
      }
    }
  }

  /** The soundness half of flattening a compiled document: every string
      in language `lang`'s document comes from a row that has that key and
      a filled `lang` cell holding that string. */
  lemma CompiledLeaves(langs: seq<string>, rows: seq<Row>, lang: string, q: seq<string>, w: string)
    requires lang in langs
    requires Lookup(Node(Populate(EmptyDocs(langs), langs, rows)[lang]), q) == Some(Leaf(w))
    ensures exists i :: 0 <= i < |rows| && Writes(rows[i], lang) && Split(rows[i][KeyColumn]) == q && rows[i][lang] == w
  {
    PopulateLeaves(EmptyDocs(langs), langs, rows, lang, q, w);
    assert Lookup(Node(map[]), q) != Some(Leaf(w));
  }

  /** One empty document per language (lines 61-64). */
  method InitDocuments(languages: seq<string>) returns (translations: Docs)
    ensures translations == EmptyDocs(languages)
  {
    translations := map[];
    var n := 0;
    while n < |languages|
      invariant 0 <= n <= |languages|
      invariant translations == EmptyDocs(languages[..n])
    {
      assert languages[..n + 1] == languages[..n] + [languages[n]];
      translations := translations[languages[n] := map[]];
      n := n + 1;
    }
    assert languages[..n] == languages;
  }

  /** The cells of one keyed row, language by language (lines 73-84). */
  method FillRow(docs: Docs, key: string, row: Row, languages: seq<string>) returns (translations: Docs)
    requires Covers(docs, languages)
    ensures translations == ApplyCells(docs, key, row, languages)
  {
    translations := docs;
    var j := 0;
    while j < |languages|
      invariant 0 <= j <= |languages|
      invariant translations == ApplyCells(docs, key, row, languages[..j])
    {
      var lang := languages[j];
      assert languages[..j + 1][..j] == languages[..j] && languages[..j + 1][j] == lang;
      if lang in row && row[lang] != "" {
        translations := translations[lang := SetIn(translations[lang], Split(key), row[lang])];
      }
      j := j + 1;
    }
    assert languages[..j] == languages;
  }

  /** Every row in input order; rows without a key are skipped (lines 66-85). */
  method FillDocuments(docs: Docs, languages: seq<string>, data: seq<Row>) returns (translations: Docs)
    requires Covers(docs, languages)
    ensures translations == Populate(docs, languages, data)
  {
    translations := docs;
    var r := 0;
    while r < |data|
      invariant 0 <= r <= |data|
      invariant translations == Populate(docs, languages, data[..r])
    {
      var row := data[r];
      assert data[..r + 1][..r] == data[..r] && data[..r + 1][r] == row;
      if KeyColumn in row && row[KeyColumn] != "" {
        translations := FillRow(translations, row[KeyColumn], row, languages);
      }
      r := r + 1;
    }
    assert data[..r] == data;
  }

  /** One file per language column, named `<language>.json` and holding
      that language's document (lines 88-89). */
  method NameFiles(languages: seq<string>, translations: Docs) returns (files: seq<OutputFile>)
    requires Covers(translations, languages)
    ensures |files| == |languages|
    ensures forall i :: 0 <= i < |languages| ==>
              files[i] == OutputFile(languages[i] + Extension, Node(translations[languages[i]]))
  {
    files := [];
    var k := 0;
    while k < |languages|
      invariant 0 <= k <= |languages|
      invariant |files| == k
      invariant forall i :: 0 <= i < k ==> files[i] == OutputFile(languages[i] + Extension, Node(translations[languages[i]]))
    {
      files := files + [OutputFile(languages[k] + Extension, Node(translations[languages[k]]))];
      k := k + 1;
    }
  }

  /** The whole run on the parser's output. A parse error or a header
      without language columns is fatal and produces nothing; otherwise
      every language gets a document that starts empty and takes the rows
      in order, and one file `<language>.json` per language column. */
  method Compile(parsed: ParseResult) returns (result: Result<Output, CompileError>)
    ensures parsed.errors != [] ==> result == Failure(ParseErrors(parsed.errors))
    ensures parsed.errors == [] && Languages(Headers(parsed)) == [] ==> result == Failure(NoLanguageColumns)
    ensures result.Success? <==> parsed.errors == [] && Languages(Headers(parsed)) != []
    ensures result.Success? ==>
              var langs := Languages(Headers(parsed));
              && result.value.languages == langs
              && result.value.translations.Keys == (set l | l in langs)
              && result.value.translations == Populate(EmptyDocs(langs), langs, parsed.data)
              && |result.value.files| == |langs|
              && forall i :: 0 <= i < |langs| ==>
                   result.value.files[i] == OutputFile(langs[i] + Extension, Node(result.value.translations[langs[i]]))
  {
    if |parsed.errors| > 0 {
      return Failure(ParseErrors(parsed.errors));
    }
    var data := parsed.data;
    var headers := Headers(parsed);
    var languages := Languages(headers);
    if |languages| == 0 {
      return Failure(NoLanguageColumns);
    }
    var translations := InitDocuments(languages);
    translations := FillDocuments(translations, languages, data);
    var files := NameFiles(languages, translations);
    result := Success(Output(languages, translations, files));
  }
}
