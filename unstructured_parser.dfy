/**
 * The deterministic parts of the unstructured.io document parser: the
 * supported-extension check that guards `parse_document`, the page-count and
 * file-name fold of `_extract_metadata`, and the sliding character window of
 * `_simple_chunk`. The partitioners themselves, the file system and the
 * chunking by title are outside the model; the elements they produce are an
 * input here, reduced to the metadata attributes the fold reads.
 */
module DocumentParsing {
  import opened Wrappers
  import opened PyText
  import opened Arith

  // ---------------------------------------------------------------------------
  // File names and the supported-format check
  // ---------------------------------------------------------------------------

  /** The extensions `UnstructuredParser` accepts, lower-case, with their dot. */
  const SupportedFormats: seq<string> := [".pdf", ".docx", ".doc", ".html", ".htm", ".txt", ".md"]

  /** `s.rfind(c)`: the last position of `c` in `s`, or -1. */
  function RFind(s: string, c: char): (r: int)
    ensures -1 <= r < |s|
    ensures r >= 0 ==> s[r] == c
    ensures forall j :: r < j < |s| ==> s[j] != c
  {
    if |s| == 0 then -1
    else if s[|s| - 1] == c then |s| - 1
    else RFind(s[..|s| - 1], c)
  }

  /** What follows the last `/` of `s` (all of `s` when it has none). */
  function LastSegment(s: string): (r: string)
    ensures '/' !in r
    ensures |r| <= |s| && r == s[|s| - |r|..]
    ensures |r| < |s| ==> s[|s| - |r| - 1] == '/'
  {
    if |s| == 0 || s[|s| - 1] == '/' then []
    else LastSegment(s[..|s| - 1]) + [s[|s| - 1]]
  }

  /**
   * `Path(path).name`: the last component of the path, where empty components
   * (repeated or trailing slashes) and "." components do not count; "" when
   * no component is left.
   */
  function Name(path: string): (name: string)
    ensures '/' !in name && name != "."
    decreases |path|
  {
    var seg := LastSegment(path);
    if seg != "" && seg != "." then seg
    else if |seg| == |path| then ""
    else Name(path[..|path| - |seg| - 1])
  }

  /**
   * A proper component at the end of a path is its name, and a trailing "/"
   * or "/." does not change the name.
   */
  lemma NameComponents(dir: string, component: string)
    ensures '/' !in component && component != "" && component != "." ==>
              Name(dir + "/" + component) == component
    ensures Name(dir + "/") == Name(dir)
    ensures Name(dir + "/.") == Name(dir)
  {
    var p := dir + "/";
    assert p[..|p| - 1] == dir;
    assert LastSegment(p) == "";
    var q := dir + "/.";
    assert q[..|q| - 1] == p;
    assert LastSegment(q) == "." by {
      assert LastSegment(q) == LastSegment(p) + ".";
    }
    assert q[..|q| - 2] == dir;
    if '/' !in component && component != "" && component != "." {
      LastSegmentAfterSlash(dir, component);
    }
  }

  lemma {:induction false} LastSegmentAfterSlash(dir: string, component: string)
    requires '/' !in component
    ensures LastSegment(dir + "/" + component) == component
    decreases |component|
  {
    var s := dir + "/" + component;
    if |component| == 0 {
      assert s == dir + "/";
    } else {
      var c' := component[..|component| - 1];
      assert s[..|s| - 1] == dir + "/" + c';
      LastSegmentAfterSlash(dir, c');
      assert component == c' + [component[|component| - 1]];
    }
  }

  /**
   * `Path.suffix` of a file name: from its last dot to the end, unless that
   * dot is the first or the last character, or there is no dot at all.
   */
  function Suffix(name: string): (s: string)
  {
    var i := RFind(name, '.');
    if 0 < i < |name| - 1 then name[i..] else ""
  }

  /**
   * A suffix is either empty or a proper ending of the name that starts with
   * its only dot and has at least one character after it; it is empty exactly
   * when the name has no dot after its first character, or ends in a dot.
   */
  lemma SuffixMeaning(name: string)
    ensures var s := Suffix(name);
      && (s != "" ==>
            && 2 <= |s| < |name| && s == name[|name| - |s|..]
            && s[0] == '.' && '.' !in s[1..])
      && (s == "" <==>
            (|name| > 0 && name[|name| - 1] == '.') || forall j :: 0 < j < |name| ==> name[j] != '.')
  {
    var s := Suffix(name);
    var i := RFind(name, '.');
    if s != "" {
      assert s[1..] == name[i + 1..];
      assert forall j :: 0 <= j < |s[1..]| ==> s[1..][j] == name[i + 1 + j];
    }
  }

  /** A single component is its own name. */
  lemma {:induction false} NameOfComponent(s: string)
    requires '/' !in s && s != "" && s != "."
    ensures Name(s) == s
  {
    LastSegmentNoSlash(s);
  }

  lemma {:induction false} LastSegmentNoSlash(s: string)
    requires '/' !in s
    ensures LastSegment(s) == s
    decreases |s|
  {
    if |s| > 0 {
      LastSegmentNoSlash(s[..|s| - 1]);
    }
  }

  /** A name with a non-empty stem and a dot-free, non-empty extension has that extension as suffix. */
  lemma {:induction false} SuffixOfExtension(stem: string, ext: string)
    requires |stem| > 0 && |ext| > 0 && '.' !in ext
    ensures Suffix(stem + "." + ext) == "." + ext
  {
    var s := stem + "." + ext;
    RFindBeforeTail(stem + ".", ext, '.');
    assert s[|stem|..] == "." + ext;
  }

  lemma {:induction false} RFindBeforeTail(s: string, tail: string, c: char)
    requires |s| > 0 && s[|s| - 1] == c && c !in tail
    ensures RFind(s + tail, c) == |s| - 1
    decreases |tail|
  {
    if |tail| > 0 {
      var t' := tail[..|tail| - 1];
      assert (s + tail)[..|s + tail| - 1] == s + t';
      RFindBeforeTail(s, t', c);
    } else {
      assert s + tail == s;
    }
  }

  /** `docs.md` is its own name, and its suffix is `.md`. */
  lemma PlainNameExample()
    ensures Name("docs.md") == "docs.md" && Suffix("docs.md") == ".md"
  {
    NameOfComponent("docs.md");
    SuffixOfExtension("docs", "md");
    assert "docs" + "." + "md" == "docs.md";
  }

  /** A directory path ending in "/." is named by its directory's last component. */
  lemma DotComponentExample()
    ensures Name("docs.md" + "/.") == "docs.md" && Suffix(Name("docs.md" + "/.")) == ".md"
  {
    NameComponents("docs.md", ".");
    PlainNameExample();
  }


  /** The partitioner `parse_document` hands a supported file to. */
  datatype Partitioner = PdfPartition | DocxPartition | HtmlPartition | AutoPartition

  /**
   * The partitioner for a lower-cased suffix: PDF, Word and HTML files have
   * their own, the other supported formats go to automatic detection, and an
   * unsupported suffix has none.
   */
  function PartitionerFor(suffix: string): (r: Option<Partitioner>)
    ensures r.Some? <==> suffix in SupportedFormats
  {
    if suffix !in SupportedFormats then None
    else if suffix == ".pdf" then Some(PdfPartition)
    else if suffix in [".docx", ".doc"] then Some(DocxPartition)
    else if suffix in [".html", ".htm"] then Some(HtmlPartition)
    else Some(AutoPartition)
  }

  /**
   * The checks `parse_document` makes before parsing: the file must exist
   * (`fileExists` stands for the file-system query), and the lower-cased
   * suffix of its name must be supported; the error message quotes the
   * suffix as written.
   */
  function SelectPartitioner(path: string, fileExists: bool): (r: Result<Partitioner, string>)
    ensures !fileExists ==> r == Err("File not found: " + path)
    ensures fileExists && Lower(Suffix(Name(path))) !in SupportedFormats ==>
              r == Err("Unsupported format: " + Suffix(Name(path)))
    ensures r.Ok? <==> fileExists && Lower(Suffix(Name(path))) in SupportedFormats
    ensures r.Ok? ==> Some(r.value) == PartitionerFor(Lower(Suffix(Name(path))))
  {
    var suffix := Suffix(Name(path));
    if !fileExists then Err("File not found: " + path)
    else
      match PartitionerFor(Lower(suffix))
      case None => Err("Unsupported format: " + suffix)
      case Some(p) => Ok(p)
  }

  /**
   * Routing by suffix: ".pdf" to the PDF partitioner, ".docx" and ".doc" to
   * the Word one, ".html" and ".htm" to the HTML one, ".txt" and ".md" to
   * automatic detection; a file without a suffix is never parsed.
   */
  lemma PartitionerRouting(suffix: string)
    ensures PartitionerFor(suffix) == Some(PdfPartition) <==> suffix == ".pdf"
    ensures PartitionerFor(suffix) == Some(DocxPartition) <==> suffix == ".docx" || suffix == ".doc"
    ensures PartitionerFor(suffix) == Some(HtmlPartition) <==> suffix == ".html" || suffix == ".htm"
    ensures PartitionerFor(suffix) == Some(AutoPartition) <==> suffix == ".txt" || suffix == ".md"
    ensures PartitionerFor(Lower("")) == None
  {
    if suffix in SupportedFormats {
      assert suffix == ".pdf" || suffix == ".docx" || suffix == ".doc" || suffix == ".html"
          || suffix == ".htm" || suffix == ".txt" || suffix == ".md";
    }
    assert Lower("") == "";
  }

  // ---------------------------------------------------------------------------
  // _extract_metadata
  // ---------------------------------------------------------------------------

  /**
   * The metadata attributes of an element that the fold reads; `None` stands
   * for an attribute the element's metadata does not have.
   */
  datatype ElementMetadata = ElementMetadata(filename: Option<string>, pageNumber: Option<int>)

  /** An element, reduced to its metadata (`None` when absent or empty). */
  datatype Element = Element(metadata: Option<ElementMetadata>)

  /** The document-level metadata; the two optional keys may be missing. */
  datatype DocumentMetadata = DocumentMetadata(
    filename: string, fileSize: nat, format: string,
    originalFilename: Option<string>, totalPages: Option<int>)

  predicate HasFilename(e: Element)
  {
    e.metadata.Some? && e.metadata.value.filename.Some?
  }

  predicate HasPage(e: Element)
  {
    e.metadata.Some? && e.metadata.value.pageNumber.Some?
  }

  function PageOf(e: Element): int
    requires HasPage(e)
  {
    e.metadata.value.pageNumber.value
  }

  /** `max(total_pages_so_far, page_number)` with a missing total read as 0. */
  function MaxPage(total: Option<int>, page: int): (m: int)
    ensures m >= page && (total.Some? ==> m >= total.value) && (total.None? ==> m >= 0)
    ensures m == page || (total.Some? && m == total.value) || (total.None? && m == 0)
  {
    var sofar := if total.Some? then total.value else 0;
    if page > sofar then page else sofar
  }

  /** The file name of the last element that has one. */
  function LastFilename(elements: seq<Element>): Option<string>
  {
    if |elements| == 0 then None
    else
      var e := elements[|elements| - 1];
      if HasFilename(e) then Some(e.metadata.value.filename.value) else LastFilename(elements[..|elements| - 1])
  }

  /** The running `max` over the page numbers, starting from a missing total. */
  function TotalPages(elements: seq<Element>): Option<int>
  {
    if |elements| == 0 then None
    else
      var e := elements[|elements| - 1];
      var before := TotalPages(elements[..|elements| - 1]);
      if HasPage(e) then Some(MaxPage(before, PageOf(e))) else before
  }

  /**
   * `fileSize` stands for the file-system size of `path`. The loop keeps the
   * file name of each element that has one and folds `max` over the page
   * numbers.
   */
  method ExtractMetadata(elements: seq<Element>, path: string, fileSize: nat) returns (m: DocumentMetadata)
    ensures m == DocumentMetadata(Name(path), fileSize, Lower(Suffix(Name(path))),
                                  LastFilename(elements), TotalPages(elements))
  {
    var originalFilename: Option<string> := None;
    var totalPages: Option<int> := None;
    for i := 0 to |elements|
      invariant originalFilename == LastFilename(elements[..i])
      invariant totalPages == TotalPages(elements[..i])
    {
      assert elements[..i + 1][..i] == elements[..i];
      var element := elements[i];
      if element.metadata.Some? {
        var meta := element.metadata.value;
        if meta.filename.Some? {
          originalFilename := Some(meta.filename.value);
        }
        if meta.pageNumber.Some? {
          totalPages := Some(MaxPage(totalPages, meta.pageNumber.value));
        }
      }
    }
    assert elements[..|elements|] == elements;
    var name := Name(path);
    m := DocumentMetadata(name, fileSize, Lower(Suffix(name)), originalFilename, totalPages);
  }

  /**
   * The original file name is present exactly when some element has one, and
   * then it is the name of an element after which no element has one.
   */
  lemma {:induction false} LastFilenameMeaning(elements: seq<Element>)
    ensures LastFilename(elements).Some? <==> exists i :: 0 <= i < |elements| && HasFilename(elements[i])
    ensures LastFilename(elements).Some? ==>
              exists i :: 0 <= i < |elements| && HasFilename(elements[i])
                && elements[i].metadata.value.filename.value == LastFilename(elements).value
                && forall j :: i < j < |elements| ==> !HasFilename(elements[j])
    decreases |elements|
  {
    if |elements| > 0 {
      var n := |elements| - 1;
      var init := elements[..n];
      LastFilenameMeaning(init);
      if HasFilename(elements[n]) {
        assert elements[n].metadata.value.filename.value == LastFilename(elements).value;
      } else if LastFilename(init).Some? {
        var i :| 0 <= i < n && HasFilename(init[i])
                 && init[i].metadata.value.filename.value == LastFilename(init).value
                 && forall j :: i < j < n ==> !HasFilename(init[j]);
        assert elements[i] == init[i];
        assert forall j :: i < j < n ==> init[j] == elements[j];
      } else {
        assert forall j :: 0 <= j < n ==> init[j] == elements[j];
      }
    }
  }

  /**
   * The page count is present exactly when some element has a page number;
   * it is then at least 0 and at least every page number, and is either 0 or
   * one of the page numbers.
   */
  lemma {:induction false} TotalPagesMeaning(elements: seq<Element>)
    ensures TotalPages(elements).Some? <==> exists i :: 0 <= i < |elements| && HasPage(elements[i])
    ensures TotalPages(elements).Some? ==>
              && TotalPages(elements).value >= 0
              && (forall i :: 0 <= i < |elements| && HasPage(elements[i]) ==> PageOf(elements[i]) <= TotalPages(elements).value)
              && (TotalPages(elements).value == 0 ||
                  exists i :: 0 <= i < |elements| && HasPage(elements[i]) && PageOf(elements[i]) == TotalPages(elements).value)
    decreases |elements|
  {
    if |elements| > 0 {
      var n := |elements| - 1;
      var init := elements[..n];
      TotalPagesMeaning(init);
      assert forall j :: 0 <= j < n ==> init[j] == elements[j];
    }
  }

  // ---------------------------------------------------------------------------
  // _simple_chunk
  // ---------------------------------------------------------------------------

  /** One chunk of the character-window fallback; `kind` is always "text". */
  datatype Chunk = Chunk(index: nat, text: string, kind: string, startOffset: int, endOffset: int)

  /** The k-th window: it starts `k` steps of `size - overlap` in and spans `size` characters. */
  function ChunkAt(text: string, size: int, overlap: int, k: nat): (c: Chunk)
    ensures c.index == k && c.kind == "text"
    ensures c.startOffset == k * (size - overlap) && c.endOffset == c.startOffset + size
  {
    var start := k * (size - overlap);
    Chunk(k, PySlice(text, start, start + size), "text", start, start + size)
  }

  /** The number of windows that start inside a text of length `n`: ceil(n / step). */
  function ChunkCount(n: nat, step: int): (c: nat)
    requires step > 0
    ensures c * step >= n
    ensures c > 0 ==> (c - 1) * step < n
    ensures c == 0 <==> n == 0
  {
    var c := (n + step - 1) / step;
    var r := (n + step - 1) % step;
    assert n + step - 1 == c * step + r;
    assert (c - 1) * step == c * step - step;
    c
  }

  /** Any count whose last window starts inside the text and whose next one does not is ChunkCount. */
  lemma ChunkCountUnique(n: nat, step: int, c: nat)
    requires step > 0
    requires c * step >= n && (c > 0 ==> (c - 1) * step < n)
    ensures c == ChunkCount(n, step)
  {
    var d := ChunkCount(n, step);
    if c < d {
      MulMonotone(c, d - 1, step);
    } else if c > d {
      MulMonotone(d, c - 1, step);
    }
  }

  /**
   * The sliding window: chunks are the windows `ChunkAt(k)` for k = 0, 1, ...
   * as long as the window starts inside the text. An empty text gives no
   * chunks whatever the sizes; on any other text the loop only advances when
   * the overlap is smaller than the size, so that is required there.
   */
  method SimpleChunk(text: string, size: int, overlap: int) returns (chunks: seq<Chunk>)
    requires overlap < size || |text| == 0
    ensures |text| == 0 ==> chunks == []
    ensures overlap < size ==> |chunks| == ChunkCount(|text|, size - overlap)
    ensures forall k :: 0 <= k < |chunks| ==> chunks[k] == ChunkAt(text, size, overlap, k)
    ensures forall k :: 0 <= k < |chunks| ==> 0 <= chunks[k].startOffset < |text|
  {
    chunks := [];
    if |text| == 0 {
      // the window loop never starts on an empty text
      return;
    }
    var start := 0;
    var index := 0;
    while start < |text|
      invariant index == |chunks| && start == index * (size - overlap)
      invariant index > 0 ==> (index - 1) * (size - overlap) < |text|
      invariant forall k :: 0 <= k < index ==> chunks[k] == ChunkAt(text, size, overlap, k)
      invariant forall k :: 0 <= k < index ==> 0 <= chunks[k].startOffset < |text|
      decreases |text| - start
    {
      var end := start + size;
      var chunkText := PySlice(text, start, end);
      chunks := chunks + [Chunk(index, chunkText, "text", start, end)];
      start := end - overlap;
      MulSucc(index, size - overlap);
      index := index + 1;
    }
    ChunkCountUnique(|text|, size - overlap, index);
  }

  /** A window that starts inside the text holds `min(size, len(text) - start)` characters. */
  lemma ChunkTextLength(text: string, size: int, overlap: int, k: nat)
    requires 0 <= size && overlap < size
    requires k < ChunkCount(|text|, size - overlap)
    ensures var c := ChunkAt(text, size, overlap, k);
      |c.text| == if size < |text| - c.startOffset then size else |text| - c.startOffset
  {
    MulMonotone(k, ChunkCount(|text|, size - overlap) - 1, size - overlap);
    MulMonotone(0, k, size - overlap);
  }

  /**
   * With a non-negative overlap smaller than the size, the windows cover the
   * text: the first starts at 0, the last reaches its end, and every character
   * lies inside some window.
   */
  lemma ChunksCoverText(text: string, size: int, overlap: int, i: nat)
    requires 0 <= overlap < size && i < |text|
    ensures var n := ChunkCount(|text|, size - overlap);
      && n > 0
      && ChunkAt(text, size, overlap, 0).startOffset == 0
      && ChunkAt(text, size, overlap, n - 1).endOffset >= |text|
      && exists k :: 0 <= k < n && ChunkAt(text, size, overlap, k).startOffset <= i < ChunkAt(text, size, overlap, k).endOffset
  {
    var step := size - overlap;
    var n := ChunkCount(|text|, step);
    MulSucc(n - 1, step);
    var k := i / step;
    DivBounds(i, step);
    MulCancel(k, n, step);
    assert ChunkAt(text, size, overlap, k).startOffset <= i < ChunkAt(text, size, overlap, k).endOffset;
  }
}
