/**
 * The retrieval client's result handling: turning the vector store's parallel result
 * lists into chunks (`retrieve`), and rendering chunks into the context block handed to
 * the model (`format_context_pack`).
 */
module Retrieval {
  import opened Wrappers
  import opened Text

  /** A chunk metadata record as stored at ingestion: string keys, string values. */
  type Metadata = map<string, string>

  /**
   * The part of the store's query result that `retrieve` reads: one list per requested
   * field, holding one inner list per query embedding. None: the key is absent.
   */
  datatype QueryResult = QueryResult(
    ids: Option<seq<seq<string>>>,
    documents: Option<seq<seq<string>>>,
    metadatas: Option<seq<seq<Option<Metadata>>>>)

  /**
   * A retrieved chunk, the dictionary `{id, text, source}`. source is None when the
   * dictionary has no "source" key (retrieve always sets it; other callers may not).
   */
  datatype Chunk = Chunk(id: string, text: string, source: Option<string>)

  /** The exception `retrieve` lets escape: a Python IndexError. */
  datatype RetrieveError = IndexError

  /** The source label used when none is recorded. */
  const DefaultSource: string := "kb"

  /** The text used for an empty list of chunks. */
  const NoKnowledge: string := "No relevant internal knowledge found."

  /**
   * `res.get(key, [[]])[0]`: a missing key reads as one empty list; a present but empty
   * outer list makes `[0]` raise.
   */
  function FirstOf<T>(field: Option<seq<seq<T>>>): Result<seq<T>, RetrieveError> {
    match field
    case None => Ok([])
    case Some(outer) => if |outer| == 0 then Err(IndexError) else Ok(outer[0])
  }

  /** `(meta or {}).get("source", "kb")` */
  function SourceOf(meta: Option<Metadata>): string {
    match meta
    case Some(m) => if "source" in m then m["source"] else DefaultSource
    case None => DefaultSource
  }

  /**
   * The result-mapping part of `retrieve(query, k)`, given what the store's query
   * returned: one chunk per id, in order. Lists of documents or metadata shorter than
   * the list of ids make an index raise, and the exception propagates.
   */
  method Retrieve(res: QueryResult) returns (r: Result<seq<Chunk>, RetrieveError>)
    ensures r.Ok? <==>
      && FirstOf(res.ids).Ok? && FirstOf(res.documents).Ok? && FirstOf(res.metadatas).Ok?
      && |FirstOf(res.ids).value| <= |FirstOf(res.documents).value|
      && |FirstOf(res.ids).value| <= |FirstOf(res.metadatas).value|
    ensures r.Ok? ==>
      var ids, docs, metas := FirstOf(res.ids).value, FirstOf(res.documents).value, FirstOf(res.metadatas).value;
      && |r.value| == |ids|
      && forall i | 0 <= i < |ids| ::
           && r.value[i].id == ids[i] && r.value[i].text == docs[i]
           && r.value[i].source == Some(SourceOf(metas[i]))
    ensures res.ids.None? && FirstOf(res.documents).Ok? && FirstOf(res.metadatas).Ok? ==> r == Ok([])
  {
    var idsR := FirstOf(res.ids);
    if idsR.Err? {
      return Err(IndexError);
    }
    var docsR := FirstOf(res.documents);
    if docsR.Err? {
      return Err(IndexError);
    }
    var metasR := FirstOf(res.metadatas);
    if metasR.Err? {
      return Err(IndexError);
    }
    var ids, docs, metas := idsR.value, docsR.value, metasR.value;
    var items: seq<Chunk> := [];
    for i := 0 to |ids|
      invariant i <= |docs| && i <= |metas|
      invariant |items| == i
      invariant forall j | 0 <= j < i :: items[j] == Chunk(ids[j], docs[j], Some(SourceOf(metas[j])))
    {
      if i >= |docs| || i >= |metas| {
        return Err(IndexError);
      }
      items := items + [Chunk(ids[i], docs[i], Some(SourceOf(metas[i])))];
    }
    return Ok(items);
  }

  // ---------------------------------------------------------------------------
  // format_context_pack
  // ---------------------------------------------------------------------------

  /** `it.get('source', 'kb')` */
  function SourceLabel(c: Chunk): string {
    c.source.GetOr(DefaultSource)
  }

  /** The header line of a chunk: `[source: s]`. */
  function Header(c: Chunk): string {
    "[source: " + SourceLabel(c) + "]"
  }

  /** The three lines the loop appends for one chunk: header, stripped text, blank. */
  function LinesOf(items: seq<Chunk>): (ls: seq<string>)
    ensures |ls| == 3 * |items|
  {
    if items == [] then []
    else
      var c := items[|items| - 1];
      LinesOf(items[..|items| - 1]) + [Header(c), Strip(c.text), ""]
  }

  /** The context block as the loop of `format_context_pack` builds it. */
  function ContextPack(items: seq<Chunk>): string {
    if items == [] then NoKnowledge else Strip(Join(LinesOf(items), "\n"))
  }

  /** `format_context_pack(items)`: collect the lines of every chunk, join them, strip. */
  method FormatContextPack(items: seq<Chunk>) returns (r: string)
    ensures r == ContextPack(items)
  {
    if |items| == 0 {
      return NoKnowledge;
    }
    var lines: seq<string> := [];
    for i := 0 to |items|
      invariant lines == LinesOf(items[..i])
    {
      var it := items[i];
      assert items[..i + 1][..i] == items[..i];
      lines := lines + ["[source: " + it.source.GetOr(DefaultSource) + "]"];
      lines := lines + [Strip(it.text)];
      lines := lines + [""];
    }
    assert items[..|items|] == items;
    r := Strip(Join(lines, "\n"));
  }

  /** One chunk's block in the rendered text: its header line, then its stripped text. */
  function Block(c: Chunk): string {
    Header(c) + "\n" + Strip(c.text)
  }

  function Blocks(items: seq<Chunk>): (bs: seq<string>)
    ensures |bs| == |items|
  {
    if items == [] then [] else Blocks(items[..|items| - 1]) + [Block(items[|items| - 1])]
  }

  lemma JoinSnoc(xs: seq<string>, y: string, sep: string)
    requires xs != []
    ensures Join(xs + [y], sep) == Join(xs, sep) + sep + y
  {
    assert (xs + [y])[..|xs|] == xs;
  }

  /** The lines of a single chunk, joined. */
  lemma JoinFirstLines(h: string, t: string)
    ensures Join([h, t, ""], "\n") == h + "\n" + t + "\n"
  {
    assert [h, t, ""][..2] == [h, t] && [h, t][..1] == [h];
    assert Join([h, t], "\n") == h + "\n" + t;
    assert h + "\n" + t + "\n" + "" == h + "\n" + t + "\n";
  }

  /** Joining three more lines after earlier ones: header, text and the blank line. */
  lemma JoinMoreLines(ls: seq<string>, h: string, t: string)
    requires ls != []
    ensures Join(ls + [h, t, ""], "\n") == Join(ls, "\n") + "\n" + h + "\n" + t + "\n"
  {
    var l1, l2 := ls + [h], ls + [h] + [t];
    JoinSnoc(ls, h, "\n");
    JoinSnoc(l1, t, "\n");
    JoinSnoc(l2, "", "\n");
    assert l2 + [""] == ls + [h, t, ""];
    var c := Join(l2, "\n");
    assert c + "\n" + "" == c + "\n";
  }

  /** The joined lines are the blocks joined by a blank line, with one newline after. */
  lemma {:induction false} LinesAreBlocks(items: seq<Chunk>)
    requires items != []
    ensures Join(LinesOf(items), "\n") == Join(Blocks(items), "\n\n") + "\n"
    decreases |items|
  {
    var init := items[..|items| - 1];
    var c := items[|items| - 1];
    var h, t := Header(c), Strip(c.text);
    var ls := LinesOf(init);
    assert LinesOf(items) == ls + [h, t, ""];
    if init == [] {
      assert ls == [] && ls + [h, t, ""] == [h, t, ""];
      JoinFirstLines(h, t);
      assert Blocks(items) == [Block(c)];
      assert Join([Block(c)], "\n\n") == Block(c);
    } else {
      JoinMoreLines(ls, h, t);
      LinesAreBlocks(init);
      var jb := Join(Blocks(init), "\n\n");
      JoinSnoc(Blocks(init), Block(c), "\n\n");
      assert Blocks(items) == Blocks(init) + [Block(c)];
      NextBlock(Join(ls, "\n"), jb, h, t);
    }
  }

  /** Three more lines after text ending in a newline are one more block after a blank line. */
  lemma NextBlock(joined: string, jb: string, h: string, t: string)
    requires joined == jb + "\n"
    ensures joined + "\n" + h + "\n" + t + "\n" == jb + "\n\n" + (h + "\n" + t) + "\n"
  {
    assert jb + "\n" + "\n" == jb + "\n\n";
  }

  /**
   * The reference rendering of a non-empty list: each chunk as `[source: s]` and its
   * stripped text on the next line, chunks separated by a blank line, the whole stripped.
   */
  lemma ContextPackIsBlocks(items: seq<Chunk>)
    requires items != []
    ensures ContextPack(items) == Strip(Join(Blocks(items), "\n\n"))
  {
    LinesAreBlocks(items);
    StripTrailingSpace(Join(Blocks(items), "\n\n"), '\n');
  }

  /**
   * A non-empty list renders to a text that begins with the first chunk's header and
   * has no whitespace at either end.
   */
  lemma ContextPackShape(items: seq<Chunk>)
    requires items != []
    ensures Header(items[0]) <= ContextPack(items)
    ensures IsStripped(ContextPack(items))
  {
    var joined := Join(Blocks(items), "\n\n");
    ContextPackIsBlocks(items);
    JoinStartsWithFirst(Blocks(items), "\n\n");
    BlocksFirst(items);
    var h := Header(items[0]);
    assert h <= Block(items[0]);
    assert h <= joined;
    assert h[0] == '[' && h[|h| - 1] == ']';
    StripKeepsPrefix(joined, h);
    StripIsStripped(joined);
  }

  lemma {:induction false} BlocksFirst(items: seq<Chunk>)
    requires items != []
    ensures Blocks(items)[0] == Block(items[0])
    decreases |items|
  {
    if |items| > 1 {
      BlocksFirst(items[..|items| - 1]);
    }
  }

  /** An empty list renders to the fixed sentinel, and only an empty list does. */
  lemma ContextPackEmpty(items: seq<Chunk>)
    ensures ContextPack(items) == NoKnowledge <==> items == []
  {
    if items != [] {
      ContextPackShape(items);
      assert Header(items[0])[0] == '[';
    }
  }
}
