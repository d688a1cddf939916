/** The OSM reader and sampling exporter. One object holds the reader's state
    (the document's event stream, a cursor into it, the captured root) and the
    exporter's options (requested tags, export map, flags), and writes one
    sampled copy of the document per entry of the export map. */
module DataFramer {
  import opened Names
  import opened Sampling
  import opened XmlEvents

  datatype Option<T> = None | Some(value: T)

  /** The exceptions raised by the reader and the exporter. */
  datatype Error =
    | BadSourceName      // ValueError: the source name's extension is not osm
    | MalformedDocument  // the parse fails before a first event is read
    | BadRootTag         // ValueError: the root tag is not osm
    | OptionMismatch     // ValueError: export flag and export map do not match
    | MissingTags        // ValueError: a requested tag is not in the document
    | PathMissing        // IOError: the path of the `root` option does not exist
    | NoExportFiles      // the export map was never given, so it cannot be iterated
    | BadExportName      // ValueError: an export name's extension is not osm

  datatype Outcome = Pass | Fail(error: Error)

  datatype Result<T> = Ok(value: T) | Err(error: Error)

  /** The `export` keyword option: absent (or None), or given with a value
      that is truthy or falsy. */
  datatype ExportOption = Absent | Given(truthy: bool)

  /** An output file: its name and the chunks written to it, in order. */
  datatype OutFile = OutFile(name: string, chunks: seq<string>)

  /** The fixed text written before and after the sampled elements. */
  const Prolog: string := "<?xml version=\"1.0\" encoding=\"UTF-8\"?>\n"
  const OpenRoot: string := "<osm>\n  "
  const CloseRoot: string := "</osm>"

  function OutcomeOf(e: Option<Error>): Outcome
  {
    if e.Some? then Fail(e.value) else Pass
  }

  /** Every factor of the export map is non-zero. */
  predicate FactorsNonZero(files: seq<(string, int)>)
  {
    forall k :: 0 <= k < |files| ==> files[k].1 != 0
  }

  /** The serialized texts of `es`, in order. */
  function Texts(es: seq<Element>): (r: seq<string>)
    ensures |r| == |es|
  {
    if es == [] then []
    else Texts(es[..|es| - 1]) + [es[|es| - 1].text]
  }

  /** The `k`-th text is the text of the `k`-th element. */
  lemma {:induction false} TextsAt(es: seq<Element>)
    ensures forall k :: 0 <= k < |es| ==> Texts(es)[k] == es[k].text
  {
    if es != [] {
      var init := es[..|es| - 1];
      TextsAt(init);
      forall k | 0 <= k < |init|
        ensures Texts(es)[k] == es[k].text
      {
        assert init[k] == es[k];
      }
    }
  }

  lemma TextsSnoc(es: seq<Element>, e: Element)
    ensures Texts(es + [e]) == Texts(es) + [e.text]
  {
    assert (es + [e])[..|es|] == es;
  }

  /** Reading the element at position `i` of the pass extends the written
      chunks by its text exactly when its position is a multiple of `factor`. */
  lemma ChunksStep(chunks: seq<string>, all: seq<Element>, i: nat, factor: int)
    requires factor != 0 && i < |all|
    requires chunks == [Prolog, OpenRoot] + Texts(Sampled(all[..i], factor))
    ensures i % factor == 0 ==> chunks + [all[i].text] == [Prolog, OpenRoot] + Texts(Sampled(all[..i + 1], factor))
    ensures i % factor != 0 ==> chunks == [Prolog, OpenRoot] + Texts(Sampled(all[..i + 1], factor))
  {
    SampledSnoc(all, i, factor);
    var kept := Sampled(all[..i], factor);
    if i % factor == 0 {
      TextsSnoc(kept, all[i]);
    } else {
      assert Sampled(all[..i + 1], factor) == kept + [] == kept;
    }
  }

  /** The chunks of one export file whose pass yields `all`: the prolog and
      opening root tag, the sampled elements, then the closing root tag. */
  function FileContent(all: seq<Element>, factor: int): seq<string>
    requires factor != 0
  {
    [Prolog, OpenRoot] + Texts(Sampled(all, factor)) + [CloseRoot]
  }

  /** Each export file is a well-formed copy: it opens with the prolog and
      `<osm>`, closes with `</osm>`, and between them holds `ceil(M/|f|)`
      elements, the `j`-th being the `(j * |f|)`-th matched element. */
  lemma FileContentShape(all: seq<Element>, factor: int)
    requires factor != 0
    ensures var a := if factor > 0 then factor else -factor;
      var c := FileContent(all, factor);
      |c| == 3 + Ceil(|all|, a) && c[0] == Prolog && c[1] == OpenRoot && c[|c| - 1] == CloseRoot &&
      var body := c[2..|c| - 1];
      forall j :: 0 <= j < |body| ==> j * a < |all| && body[j] == all[j * a].text
  {
    var a := if factor > 0 then factor else -factor;
    if factor < 0 {
      SampledNegated(all, a);
    }
    assert Sampled(all, factor) == Sampled(all, a);
    SampledExactly(all, a);
    TextsAt(Sampled(all, a));
    var c := FileContent(all, factor);
    assert c[2..|c| - 1] == Texts(Sampled(all, a));
  }

  /** The options check as the source writes it: nothing is checked when
      `export` is falsy; otherwise it raises when exactly one of `export`
      and the export map is missing. */
  predicate OptionsMismatch(exportFlag: ExportOption, files: Option<seq<(string, int)>>)
  {
    if !(exportFlag.Given? && exportFlag.truthy) then false
    else (exportFlag.Absent? && files.Some?) || (exportFlag.Given? && files.None?)
  }

  /** The check raises only for a truthy `export` without an export map; an
      export map without `export` passes. */
  lemma OptionsMismatchIff(exportFlag: ExportOption, files: Option<seq<(string, int)>>)
    ensures OptionsMismatch(exportFlag, files) <==> exportFlag == Given(true) && files.None?
    ensures files.Some? ==> !OptionsMismatch(exportFlag, files)
  {
  }

  /** The error `_validate` raises when the cursor still has `rest` to read. */
  function ValidationError(exportFlag: ExportOption, files: Option<seq<(string, int)>>,
                           tagValidation: bool, tags: seq<string>, rest: seq<Event>): Option<Error>
  {
    if OptionsMismatch(exportFlag, files) then Some(OptionMismatch)
    else if tagValidation && exists j :: 0 <= j < |tags| && tags[j] !in TagsOf(rest) then Some(MissingTags)
    else None
  }

  /** The error construction raises, in the order the checks run. */
  function OpenError(osmFile: string, document: seq<Event>, tags: seq<string>, exportFlag: ExportOption,
                     files: Option<seq<(string, int)>>, tagValidation: bool): Option<Error>
  {
    if !IsOsmSourceName(osmFile) then Some(BadSourceName)
    else if document == [] then Some(MalformedDocument)
    else if Lower(document[0].elem.tag) != Osm then Some(BadRootTag)
    else ValidationError(exportFlag, files, tagValidation, tags, document[1..])
  }

  /** With tag validation on, construction succeeds exactly when the name, the
      root and the options pass and every requested tag is the tag of some
      event after the root's start event. */
  lemma OpenWithTagValidation(osmFile: string, document: seq<Event>, tags: seq<string>,
                              exportFlag: ExportOption, files: Option<seq<(string, int)>>)
    ensures OpenError(osmFile, document, tags, exportFlag, files, true) == None <==>
      IsOsmSourceName(osmFile) && |document| > 0 && Lower(document[0].elem.tag) == Osm &&
      !(exportFlag == Given(true) && files.None?) &&
      forall t :: t in tags ==> exists i :: 1 <= i < |document| && document[i].elem.tag == t
  {
    OptionsMismatchIff(exportFlag, files);
    if IsOsmSourceName(osmFile) && |document| > 0 && Lower(document[0].elem.tag) == Osm {
      var rest := document[1..];
      TagsOfSpec(rest);
      forall t | t in tags
        ensures t in TagsOf(rest) <==> exists i :: 1 <= i < |document| && document[i].elem.tag == t
      {
        if t in TagsOf(rest) {
          var i :| 0 <= i < |rest| && rest[i].elem.tag == t;
          assert document[i + 1] == rest[i];
        }
        if exists i :: 1 <= i < |document| && document[i].elem.tag == t {
          var i :| 1 <= i < |document| && document[i].elem.tag == t;
          assert rest[i - 1] == document[i];
        }
      }
      assert (exists j :: 0 <= j < |tags| && tags[j] !in TagsOf(rest)) <==> exists t :: t in tags && t !in TagsOf(rest);
    }
  }

  /** The record of one export run: the files written, in order, and how it
      ended. */
  datatype Run = Run(files: seq<OutFile>, outcome: Outcome)

  /** What one export writes when the `root` option's path exists and the
      export map is given: the first file reads the cursor from `pos`, every
      later file a fresh pass over the whole document; a file with a bad
      extension stops the run and the files before it stay written. */
  function ExportRun(doc: seq<Event>, tags: seq<string>, pos: nat, files: seq<(string, int)>): Run
    requires pos <= |doc| && FactorsNonZero(files)
    decreases |files|
  {
    if files == [] then Run([], Pass)
    else if !IsOsmExportName(files[0].0) then Run([], Fail(BadExportName))
    else
      var rest := ExportRun(doc, tags, 0, files[1..]);
      Run([OutFile(files[0].0, FileContent(Matched(doc[pos..], tags), files[0].1))] + rest.files, rest.outcome)
  }

  /** Unfolds the export run over the entries from `k` on: a bad name at `k`
      ends it at once, a good one writes the file read from `pos` and hands
      over to the entries after it on a fresh pass. */
  lemma ExportRunAt(doc: seq<Event>, tags: seq<string>, pos: nat, files: seq<(string, int)>, k: nat)
    requires pos <= |doc| && FactorsNonZero(files) && k < |files|
    ensures !IsOsmExportName(files[k].0) ==> ExportRun(doc, tags, pos, files[k..]) == Run([], Fail(BadExportName))
    ensures IsOsmExportName(files[k].0) ==>
      var rest := ExportRun(doc, tags, 0, files[k + 1..]);
      ExportRun(doc, tags, pos, files[k..]) ==
        Run([OutFile(files[k].0, FileContent(Matched(doc[pos..], tags), files[k].1))] + rest.files, rest.outcome)
  {
    assert files[k..][0] == files[k] && files[k..][1..] == files[k + 1..];
  }

  /** One step of the export loop: once the file of a good entry at `k` is
      written, the files still to come are those of a fresh pass over the
      entries after `k`. */
  lemma ExportStep(doc: seq<Event>, tags: seq<string>, pos: nat, files: seq<(string, int)>, k: nat,
                   done: seq<OutFile>, full: Run)
    requires pos <= |doc| && FactorsNonZero(files) && k < |files| && IsOsmExportName(files[k].0)
    requires full.files == done + ExportRun(doc, tags, pos, files[k..]).files
    requires full.outcome == ExportRun(doc, tags, pos, files[k..]).outcome
    ensures var file := OutFile(files[k].0, FileContent(Matched(doc[pos..], tags), files[k].1));
      full.files == (done + [file]) + ExportRun(doc, tags, 0, files[k + 1..]).files &&
      full.outcome == ExportRun(doc, tags, 0, files[k + 1..]).outcome
  {
    ExportRunAt(doc, tags, pos, files, k);
  }

  /** An export writes either every file of the map, or the files before the
      first one whose extension is not osm, which then fails the run; each
      written file carries its entry's name. */
  lemma {:induction false} ExportRunWritesPrefix(doc: seq<Event>, tags: seq<string>, pos: nat, files: seq<(string, int)>)
    requires pos <= |doc| && FactorsNonZero(files)
    ensures var run := ExportRun(doc, tags, pos, files);
      |run.files| <= |files| &&
      (run.outcome == Pass <==> |run.files| == |files|) &&
      (run.outcome != Pass ==> run.outcome == Fail(BadExportName) && !IsOsmExportName(files[|run.files|].0)) &&
      forall k :: 0 <= k < |run.files| ==> run.files[k].name == files[k].0 && IsOsmExportName(files[k].0)
  {
    if files != [] && IsOsmExportName(files[0].0) {
      ExportRunWritesPrefix(doc, tags, 0, files[1..]);
      var rest := ExportRun(doc, tags, 0, files[1..]);
      var run := ExportRun(doc, tags, pos, files);
      forall k | 1 <= k < |run.files|
        ensures run.files[k].name == files[k].0 && IsOsmExportName(files[k].0)
      {
        assert run.files[k] == rest.files[k - 1];
        assert files[1..][k - 1] == files[k];
      }
      if run.outcome != Pass {
        assert files[1..][|rest.files|] == files[|run.files|];
      }
    }
  }

  /** Every file after the first sees a fresh pass over the whole document:
      its content depends only on the document, the tags and its own factor,
      not on the cursor or on the files before it. */
  lemma {:induction false} LaterFilesSeeFreshPass(doc: seq<Event>, tags: seq<string>, pos: nat, files: seq<(string, int)>)
    requires pos <= |doc| && FactorsNonZero(files)
    ensures var run := ExportRun(doc, tags, pos, files);
      forall k :: 1 <= k < |run.files| && k < |files| ==>
        run.files[k].chunks == FileContent(Matched(doc, tags), files[k].1)
  {
    if files != [] && IsOsmExportName(files[0].0) {
      var rest := ExportRun(doc, tags, 0, files[1..]);
      var run := ExportRun(doc, tags, pos, files);
      ExportRunWritesPrefix(doc, tags, 0, files[1..]);
      assert doc[0..] == doc;
      forall k | 1 <= k < |run.files| && k < |files|
        ensures run.files[k].chunks == FileContent(Matched(doc, tags), files[k].1)
      {
        assert run.files[k] == rest.files[k - 1];
        assert files[1..][k - 1] == files[k];
        if k >= 2 {
          LaterFilesSeeFreshPass(doc, tags, 0, files[1..]);
        }
      }
    }
  }

  /** After tag validation has drained the cursor, the first export file
      holds no element: only the prolog, `<osm>` and `</osm>`. */
  lemma FirstFileAfterDrainIsEmpty(doc: seq<Event>, tags: seq<string>, files: seq<(string, int)>)
    requires FactorsNonZero(files)
    requires |files| > 0 && IsOsmExportName(files[0].0)
    ensures ExportRun(doc, tags, |doc|, files).files[0].chunks == [Prolog, OpenRoot, CloseRoot]
  {
    assert doc[|doc|..] == [];
    assert Texts([]) == [];
  }

  /** Without tag validation the cursor stands just after the root's start
      event; the reset passes start before it, yet every file with the same
      factor gets the same content, the first one included. */
  lemma FirstFileMatchesLaterFiles(doc: seq<Event>, tags: seq<string>, files: seq<(string, int)>)
    requires |doc| > 0 && doc[0].kind == Start
    requires FactorsNonZero(files)
    requires |files| > 0 && IsOsmExportName(files[0].0)
    ensures ExportRun(doc, tags, 1, files).files[0].chunks == FileContent(Matched(doc, tags), files[0].1)
  {
    MatchedSkipsStart(doc, tags);
  }

  class DataFramerXML {
    /** The document, as the event stream its parse delivers; every re-parse
        delivers the same events. */
    const source: seq<Event>
    /** The cursor: how many events of the current pass have been consumed. */
    var pos: nat
    /** The root element captured by the root check. */
    var root: Option<Element>
    const tags: seq<string>
    const exportFiles: Option<seq<(string, int)>>
    const exportFlag: ExportOption
    const tagValidation: bool
    /** The files written so far, in the order they were written. */
    var outputs: seq<OutFile>

    ghost predicate Valid()
      reads this
    {
      pos <= |source|
    }

    constructor (document: seq<Event>, tags: seq<string>, exportFlag: ExportOption,
                 files: Option<seq<(string, int)>>, tagValidation: bool)
      ensures Valid()
      ensures source == document && pos == 0 && root == None && outputs == []
      ensures this.tags == tags && this.exportFlag == exportFlag && exportFiles == files
      ensures this.tagValidation == tagValidation
    {
      source := document;
      pos := 0;
      root := None;
      this.tags := tags;
      exportFiles := files;
      this.exportFlag := exportFlag;
      this.tagValidation := tagValidation;
      outputs := [];
    }

    /** Construction: the extension check, then the root check on a fresh
        pass, then the validation of options and tags. */
    static method Open(osmFile: string, document: seq<Event>, tags: seq<string>, exportFlag: ExportOption,
                       files: Option<seq<(string, int)>>, tagValidation: bool)
      returns (r: Result<DataFramerXML>)
      ensures r.Err? <==> OpenError(osmFile, document, tags, exportFlag, files, tagValidation).Some?
      ensures r.Err? ==> OpenError(osmFile, document, tags, exportFlag, files, tagValidation) == Some(r.error)
      ensures r.Ok? ==> (
        fresh(r.value) && r.value.Valid() && |document| > 0 &&
        r.value.source == document && r.value.tags == tags && r.value.exportFlag == exportFlag &&
        r.value.exportFiles == files && r.value.tagValidation == tagValidation &&
        r.value.root == Some(document[0].elem) && r.value.outputs == [] &&
        r.value.pos == (if tagValidation then |document| else 1))
    {
      if !IsOsmSourceName(osmFile) {
        return Err(BadSourceName);
      }
      var p := new DataFramerXML(document, tags, exportFlag, files, tagValidation);
      var o := p.CheckRoot();
      if o.Fail? {
        return Err(o.error);
      }
      assert document[1..] == p.source[1..];
      o := p.Validate();
      if o.Fail? {
        return Err(o.error);
      }
      return Ok(p);
    }

    /** Reads the first event of the pass as the root: fails when the stream
        is empty, otherwise captures the root and advances the cursor by one,
        and fails unless the root's tag lower-cases to `osm`. */
    method CheckRoot() returns (r: Outcome)
      requires Valid()
      modifies this`pos, this`root
      ensures Valid()
      ensures old(pos) == |source| ==> r == Fail(MalformedDocument) && pos == old(pos) && root == old(root)
      ensures old(pos) < |source| ==>
        pos == old(pos) + 1 && root == Some(source[old(pos)].elem) &&
        r == (if Lower(source[old(pos)].elem.tag) == Osm then Pass else Fail(BadRootTag))
    {
      if pos == |source| {
        return Fail(MalformedDocument);
      }
      root := Some(source[pos].elem);
      pos := pos + 1;
      if Lower(root.value.tag) != Osm {
        return Fail(BadRootTag);
      }
      return Pass;
    }

    /** Resumes the element stream: consumes events up to and including the
        next end event whose tag is requested and yields its element, or
        consumes the rest of the pass and yields nothing. */
    method NextElement() returns (e: Option<Element>)
      requires Valid()
      modifies this`pos
      ensures Valid() && old(pos) <= pos
      ensures e.Some? ==> (
        old(pos) < pos && IsMatch(source[pos - 1], tags) && e.value == source[pos - 1].elem &&
        Matched(source[old(pos)..pos - 1], tags) == [] &&
        Matched(source[old(pos)..], tags) == [e.value] + Matched(source[pos..], tags))
      ensures e.None? ==> pos == |source| && Matched(source[old(pos)..], tags) == []
    {
      while pos < |source|
        invariant old(pos) <= pos <= |source|
        invariant Matched(source[old(pos)..pos], tags) == []
        invariant Matched(source[old(pos)..], tags) == Matched(source[pos..], tags)
      {
        var ev := source[pos];
        MatchedStep(source, pos, tags);
        if ev.kind == End && ev.elem.tag in tags {
          pos := pos + 1;
          return Some(ev.elem);
        }
        SkipStep(source, old(pos), pos, tags);
        pos := pos + 1;
      }
      return None;
    }

    /** The options check, then, with tag validation on, one pass that drains
        the cursor collecting every event's tag, and the check that each
        requested tag was seen. */
    method Validate() returns (r: Outcome)
      requires Valid()
      modifies this`pos
      ensures Valid()
      ensures r == OutcomeOf(ValidationError(exportFlag, exportFiles, tagValidation, tags, old(source[pos..])))
      ensures pos == if !OptionsMismatch(exportFlag, exportFiles) && tagValidation then |source| else old(pos)
    {
      if !(exportFlag.Given? && exportFlag.truthy) {
      } else if (exportFlag.Absent? && exportFiles.Some?) || (exportFlag.Given? && exportFiles.None?) {
        return Fail(OptionMismatch);
      }
      if tagValidation {
        ghost var start := pos;
        var allTags: set<string> := {};
        while pos < |source|
          invariant start <= pos <= |source|
          invariant allTags == TagsOf(source[start..pos])
        {
          assert source[start..pos + 1][..pos - start] == source[start..pos];
          allTags := allTags + {source[pos].elem.tag};
          pos := pos + 1;
        }
        assert source[start..pos] == source[start..];
        for k := 0 to |tags|
          invariant forall j :: 0 <= j < k ==> tags[j] in allTags
        {
          if tags[k] !in allTags {
            return Fail(MissingTags);
          }
        }
      }
      return Pass;
    }

    /** Writes one export file: the prolog and `<osm>`, every element of the
        stream whose 0-based number is a multiple of `factor`, then `</osm>`
        once the stream is exhausted; then resets the cursor to a fresh pass. */
    method ExportOne(name: string, factor: int)
      requires Valid() && factor != 0
      modifies this`pos, this`outputs
      ensures Valid() && pos == 0
      ensures outputs == old(outputs) + [OutFile(name, FileContent(Matched(source[old(pos)..], tags), factor))]
    {
      ghost var all := Matched(source[pos..], tags);
      var chunks := [Prolog, OpenRoot];
      var i := 0;
      var e := NextElement();
      if e.Some? {
        SuffixCons(all, 0, e.value, Matched(source[pos..], tags));
      }
      while e.Some?
        invariant Valid() && i <= |all| && outputs == old(outputs)
        invariant e.Some? ==> i < |all| && e.value == all[i] && Matched(source[pos..], tags) == all[i + 1..]
        invariant e.None? ==> i == |all|
        invariant chunks == [Prolog, OpenRoot] + Texts(Sampled(all[..i], factor))
        decreases |source| - pos + (if e.Some? then 1 else 0)
      {
        ChunksStep(chunks, all, i, factor);
        if i % factor == 0 {
          chunks := chunks + [e.value.text];
        }
        i := i + 1;
        e := NextElement();
        if e.Some? {
          SuffixCons(all, i, e.value, Matched(source[pos..], tags));
        }
      }
      assert all[..i] == all;
      chunks := chunks + [CloseRoot];
      outputs := outputs + [OutFile(name, chunks)];
      pos := 0;
    }

    /** The export: fails when the path of the `root` option (default `.`),
        which is checked but never written to, does not exist, or when no
        export map was given; otherwise writes one file per entry, in order,
        and stops at the first entry whose extension is not osm. */
    method ExportDataset(rootPathExists: bool) returns (r: Outcome)
      requires Valid()
      requires exportFiles.Some? ==> FactorsNonZero(exportFiles.value)
      modifies this`pos, this`outputs
      ensures Valid()
      ensures !rootPathExists ==> r == Fail(PathMissing) && outputs == old(outputs) && pos == old(pos)
      ensures rootPathExists && exportFiles.None? ==>
        r == Fail(NoExportFiles) && outputs == old(outputs) && pos == old(pos)
      ensures rootPathExists && exportFiles.Some? ==>
        var run := ExportRun(source, tags, old(pos), exportFiles.value);
        outputs == old(outputs) + run.files && r == run.outcome &&
        pos == (if run.files == [] then old(pos) else 0)
    {
      if !rootPathExists {
        return Fail(PathMissing);
      }
      if exportFiles.None? {
        return Fail(NoExportFiles);
      }
      r := ExportFiles(exportFiles.value);
    }

    /** The loop over the export map's entries, in order. */
    method ExportFiles(files: seq<(string, int)>) returns (r: Outcome)
      requires Valid() && FactorsNonZero(files)
      modifies this`pos, this`outputs
      ensures Valid()
      ensures var run := ExportRun(source, tags, old(pos), files);
        outputs == old(outputs) + run.files && r == run.outcome &&
        pos == (if run.files == [] then old(pos) else 0)
    {
      ghost var p0 := pos;
      ghost var full := ExportRun(source, tags, p0, files);
      ghost var done: seq<OutFile> := [];
      var k := 0;
      assert files[0..] == files;
      while k < |files|
        invariant 0 <= k <= |files| && Valid()
        invariant |done| == k && pos == (if k == 0 then p0 else 0)
        invariant outputs == old(outputs) + done
        invariant full.files == done + ExportRun(source, tags, pos, files[k..]).files
        invariant full.outcome == ExportRun(source, tags, pos, files[k..]).outcome
      {
        var (name, factor) := files[k];
        if LastSegment(name) != Osm {
          ExportRunAt(source, tags, pos, files, k);
          return Fail(BadExportName);
        }
        ExportStep(source, tags, pos, files, k, done, full);
        ghost var file := OutFile(name, FileContent(Matched(source[pos..], tags), factor));
        ExportOne(name, factor);
        done := done + [file];
        k := k + 1;
      }
      assert files[k..] == [];
      return Pass;
    }
  }
}
