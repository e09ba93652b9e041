/** A two-row, two-language table: the second row's empty `ja` cell
    leaves no `farewell` entry in `ja`. The
    table is passed in through `requires` so that the verifier unfolds the
    recursive definitions only as far as each proof asks. */
module ConvertExample {
  import opened Results
  import opened KeyPaths
  import opened MessageTree
  import opened ConvertTranslations

  /** A document set over two languages is determined by their documents. */
  lemma TwoLanguages(docs: Docs, a: string, b: string)
    requires docs.Keys == {a, b}
    ensures docs == map[a := docs[a], b := docs[b]]
  {
  }

  lemma ExampleLanguages(headers: seq<string>)
    requires headers == ["key", "en", "ja"]
    ensures Languages(headers) == ["en", "ja"]
  {
    assert headers[..2] == ["key", "en"];
    assert headers[..2][..1] == ["key"];
    assert headers[..2][..1][..0] == [];
    assert Languages(headers[..2][..1]) == [];
    assert Languages(headers[..2]) == ["en"];
  }

  /** A row keyed `greeting` writes its filled cell into an empty document. */
  lemma GreetingCell(docs: Docs, langs: seq<string>, row: Row, lang: string)
    requires lang in langs && Covers(docs, langs)
    requires lang in docs && docs[lang] == map[]
    requires "key" in row && row["key"] == "greeting" && lang in row && row[lang] != ""
    ensures ApplyRow(docs, langs, row)[lang] == map["greeting" := Leaf(row[lang])]
  {
    SplitJoin(["greeting"]);
    assert Join(["greeting"]) == "greeting";
    ApplyRowAt(docs, langs, row, lang);
  }

  lemma GreetingRow(langs: seq<string>, row: Row)
    requires langs == ["en", "ja"]
    requires row == map["key" := "greeting", "en" := "Hello", "ja" := "こんにちは"]
    ensures ApplyRow(EmptyDocs(langs), langs, row).Keys == {"en", "ja"}
    ensures ApplyRow(EmptyDocs(langs), langs, row)["en"] == map["greeting" := Leaf("Hello")]
    ensures ApplyRow(EmptyDocs(langs), langs, row)["ja"] == map["greeting" := Leaf("こんにちは")]
  {
    var empty := EmptyDocs(langs);
    assert "en" in empty && "ja" in empty;
    GreetingCell(empty, langs, row, "en");
    GreetingCell(empty, langs, row, "ja");
  }

  lemma FarewellKey(key: string, segments: seq<string>)
    requires key == "farewell.short" && segments == ["farewell", "short"]
    ensures Split(key) == segments
  {
    SplitJoin(segments);
    assert Join(segments) == key;
  }

  lemma FarewellEnglish(docs: Docs, langs: seq<string>, row: Row)
    requires "en" in langs
    requires "key" in row && row["key"] == "farewell.short" && "en" in row && row["en"] == "Bye"
    requires "en" in docs && Covers(docs, langs)
    ensures ApplyRow(docs, langs, row)["en"] == SetIn(docs["en"], ["farewell", "short"], "Bye")
  {
    FarewellKey(row["key"], ["farewell", "short"]);
    ApplyRowAt(docs, langs, row, "en");
  }

  lemma FarewellJapanese(docs: Docs, langs: seq<string>, row: Row)
    requires "ja" in row && row["ja"] == ""
    requires "ja" in docs && Covers(docs, langs)
    ensures ApplyRow(docs, langs, row)["ja"] == docs["ja"]
  {
    ApplyRowAt(docs, langs, row, "ja");
  }

  lemma FarewellWritten(m: map<string, Tree>)
    requires m == map["greeting" := Leaf("Hello")]
    ensures SetIn(m, ["farewell", "short"], "Bye")
            == map["greeting" := Leaf("Hello"), "farewell" := Node(map["short" := Leaf("Bye")])]
  {
  }

  /** Two rows are the first row's step followed by the second's. */
  lemma PopulateTwo(docs: Docs, langs: seq<string>, first: Row, second: Row)
    requires Covers(docs, langs)
    ensures Populate(docs, langs, [first, second]) == ApplyRow(ApplyRow(docs, langs, first), langs, second)
  {
    assert [first, second][..1] == [first] && [first][..0] == [];
    assert Populate(docs, langs, [first]) == ApplyRow(docs, langs, first);
  }

  lemma ExampleDocuments(langs: seq<string>, greeting: Row, farewell: Row)
    requires langs == ["en", "ja"]
    requires greeting == map["key" := "greeting", "en" := "Hello", "ja" := "こんにちは"]
    requires farewell == map["key" := "farewell.short", "en" := "Bye", "ja" := ""]
    ensures Populate(EmptyDocs(langs), langs, [greeting, farewell])
            == map["en" := map["greeting" := Leaf("Hello"), "farewell" := Node(map["short" := Leaf("Bye")])],
                   "ja" := map["greeting" := Leaf("こんにちは")]]
  {
    PopulateTwo(EmptyDocs(langs), langs, greeting, farewell);
    GreetingRow(langs, greeting);
    var afterGreeting := ApplyRow(EmptyDocs(langs), langs, greeting);
    FarewellEnglish(afterGreeting, langs, farewell);
    FarewellJapanese(afterGreeting, langs, farewell);
    FarewellWritten(afterGreeting["en"]);
    TwoLanguages(ApplyRow(afterGreeting, langs, farewell), "en", "ja");
  }

  /** The whole table: header `key,en,ja`, a `greeting` row filled in both
      languages and a `farewell.short` row filled in English only. */
  lemma TwoLanguageTable(headers: seq<string>, greeting: Row, farewell: Row)
    requires headers == ["key", "en", "ja"]
    requires greeting == map["key" := "greeting", "en" := "Hello", "ja" := "こんにちは"]
    requires farewell == map["key" := "farewell.short", "en" := "Bye", "ja" := ""]
    ensures Languages(headers) == ["en", "ja"]
    ensures Populate(EmptyDocs(Languages(headers)), Languages(headers), [greeting, farewell])
            == map["en" := map["greeting" := Leaf("Hello"), "farewell" := Node(map["short" := Leaf("Bye")])],
                   "ja" := map["greeting" := Leaf("こんにちは")]]
  {
    ExampleLanguages(headers);
    ExampleDocuments(Languages(headers), greeting, farewell);
  }

  /** The two files written for the table's documents. */
  lemma ExampleFiles(files: seq<OutputFile>, langs: seq<string>, docs: Docs)
    requires langs == ["en", "ja"] && |files| == 2
    requires docs == map["en" := map["greeting" := Leaf("Hello"), "farewell" := Node(map["short" := Leaf("Bye")])],
                         "ja" := map["greeting" := Leaf("こんにちは")]]
    requires forall i :: 0 <= i < |langs| ==> files[i] == OutputFile(langs[i] + Extension, Node(docs[langs[i]]))
    ensures files[0] == OutputFile("en.json", Node(map["greeting" := Leaf("Hello"), "farewell" := Node(map["short" := Leaf("Bye")])]))
    ensures files[1] == OutputFile("ja.json", Node(map["greeting" := Leaf("こんにちは")]))
  {
    assert files[0] == OutputFile(langs[0] + Extension, Node(docs[langs[0]]));
    assert files[1] == OutputFile(langs[1] + Extension, Node(docs[langs[1]]));
  }

  /** Running the compiler on the parsed table: no parse error, header
      `key,en,ja` and the two rows give exactly the files `en.json` and
      `ja.json`, in that order, holding the two documents. */
  method CompileTable(parsed: ParseResult, greeting: Row, farewell: Row) returns (files: seq<OutputFile>)
    requires parsed.errors == [] && parsed.fields == Some(["key", "en", "ja"]) && parsed.data == [greeting, farewell]
    requires greeting == map["key" := "greeting", "en" := "Hello", "ja" := "こんにちは"]
    requires farewell == map["key" := "farewell.short", "en" := "Bye", "ja" := ""]
    ensures |files| == 2
    ensures files[0] == OutputFile("en.json", Node(map["greeting" := Leaf("Hello"), "farewell" := Node(map["short" := Leaf("Bye")])]))
    ensures files[1] == OutputFile("ja.json", Node(map["greeting" := Leaf("こんにちは")]))
  {
    var headers := Headers(parsed);
    TwoLanguageTable(headers, greeting, farewell);
    var result := Compile(parsed);
    files := result.value.files;
    ExampleFiles(files, Languages(headers), result.value.translations);
  }
}
