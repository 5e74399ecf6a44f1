/**
 * The note-selection model of `src/lib.rs`: collecting the YAML metadata
 * block of a note from its markdown events, extracting its tags, deciding
 * whether the note is selected, recognising markdown files by extension, and
 * the `Copier` that accumulates the notes to copy.
 */
module Lib {
  import opened Wrappers

  /** A file-system path, written with `/` separators. */
  type Path = string

  /**
   * The `CopyError` variants the selection step can raise, and the panic on
   * an unexpected event inside the metadata block, which ends the run just
   * the same.
   */
  datatype CopyError =
    | ReadError(path: Path)
    | FrontmatterDecodeError(path: Path)
    | UnexpectedFrontmatterEvent(path: Path)

  // ---------------------------------------------------------------------------
  // Metadata-block collection (the `'outer` loop of `test_note`)
  // ---------------------------------------------------------------------------

  /** The markdown events the collection loop tells apart; every other event is `OtherEvent`. */
  datatype Event =
    | MetadataBlockStart
    | MetadataBlockEnd
    | Text(text: string)
    | OtherEvent

  function Prepend(s: string, o: Option<string>): Option<string>
  {
    if o.Some? then Some(s + o.value) else None
  }

  lemma PrependEmpty(o: Option<string>)
    ensures Prepend([], o) == o
  {
    if o.Some? {
      assert [] + o.value == o.value;
    }
  }

  lemma PrependPrepend(s: string, u: string, o: Option<string>)
    ensures Prepend(s, Prepend(u, o)) == Prepend(s + u, o)
  {
    if o.Some? {
      assert s + (u + o.value) == s + u + o.value;
    }
  }

  /**
   * The metadata text of `events`, read from the state `inBlock` (inside a
   * metadata block or not): the text events inside blocks, in order. `None`
   * when an event other than text or the block end occurs inside a block.
   */
  function FrontmatterText(events: seq<Event>, inBlock: bool): (r: Option<string>)
    ensures !inBlock && MetadataBlockStart !in events ==> r == Some([])
    ensures r.None? ==> inBlock || MetadataBlockStart in events
    decreases |events|
  {
    if events == [] then Some([])
    else
      var rest := events[1..];
      match events[0]
      case MetadataBlockStart => if inBlock then None else FrontmatterText(rest, true)
      case MetadataBlockEnd => FrontmatterText(rest, false)
      case Text(s) => if inBlock then Prepend(s, FrontmatterText(rest, true)) else FrontmatterText(rest, false)
      case OtherEvent => if inBlock then None else FrontmatterText(rest, false)
  }

  /**
   * The collection loop: outside a block it skips events until a block
   * starts; inside it appends text until the block ends. `None` is the panic.
   */
  method CollectFrontmatter(events: seq<Event>) returns (r: Option<string>)
    ensures r == FrontmatterText(events, false)
  {
    var buffer := "";
    var i := 0;
    assert events[0..] == events;
    PrependEmpty(FrontmatterText(events, false));
    while i < |events|
      invariant 0 <= i <= |events|
      invariant FrontmatterText(events, false) == Prepend(buffer, FrontmatterText(events[i..], false))
    {
      var event := events[i];
      assert events[i..][1..] == events[i + 1..];
      i := i + 1;
      if event == MetadataBlockStart {
        while i < |events|
          invariant 0 <= i <= |events|
          invariant FrontmatterText(events, false) == Prepend(buffer, FrontmatterText(events[i..], true))
        {
          var inner := events[i];
          assert events[i..][1..] == events[i + 1..];
          i := i + 1;
          match inner
          case Text(s) =>
            PrependPrepend(buffer, s, FrontmatterText(events[i..], true));
            buffer := buffer + s;
          case MetadataBlockEnd =>
            break;
          case _ =>
            return None;
        }
      }
    }
    assert events[i..] == [] && buffer + [] == buffer;
    return Some(buffer);
  }

  /** The text events made from `ss`, in order. */
  function Texts(ss: seq<string>): (events: seq<Event>)
    ensures |events| == |ss|
    ensures forall i :: 0 <= i < |ss| ==> events[i] == Text(ss[i])
  {
    if ss == [] then [] else [Text(ss[0])] + Texts(ss[1..])
  }

  /** The strings of `ss` joined end to end. */
  function Concat(ss: seq<string>): string
  {
    if ss == [] then [] else ss[0] + Concat(ss[1..])
  }

  lemma ConcatSingle(s: string)
    ensures Concat([s]) == s
  {
    assert [s][1..] == [];
    assert s + [] == s;
  }

  /** A metadata block holding the text events `ss`. */
  function Block(ss: seq<string>): seq<Event>
  {
    [MetadataBlockStart] + Texts(ss) + [MetadataBlockEnd]
  }

  /** Inside a block, text events are appended in order. */
  lemma {:induction false} TextsInBlock(ss: seq<string>, rest: seq<Event>)
    ensures FrontmatterText(Texts(ss) + rest, true) == Prepend(Concat(ss), FrontmatterText(rest, true))
  {
    if ss == [] {
      assert Texts(ss) + rest == rest;
      PrependEmpty(FrontmatterText(rest, true));
    } else {
      var events := Texts(ss) + rest;
      assert events[0] == Text(ss[0]);
      assert events[1..] == Texts(ss[1..]) + rest;
      assert FrontmatterText(events, true) == Prepend(ss[0], FrontmatterText(events[1..], true));
      TextsInBlock(ss[1..], rest);
      PrependPrepend(ss[0], Concat(ss[1..]), FrontmatterText(rest, true));
    }
  }

  /** Events before any block starts contribute nothing. */
  lemma {:induction false} OutsideIgnored(before: seq<Event>, rest: seq<Event>)
    requires forall i :: 0 <= i < |before| ==> before[i] != MetadataBlockStart
    ensures FrontmatterText(before + rest, false) == FrontmatterText(rest, false)
  {
    if before == [] {
      assert before + rest == rest;
    } else {
      assert (before + rest)[0] == before[0];
      assert (before + rest)[1..] == before[1..] + rest;
      OutsideIgnored(before[1..], rest);
    }
  }

  /** A closed block contributes its text, and collection goes on after it. */
  lemma BlockThenRest(ss: seq<string>, rest: seq<Event>)
    ensures FrontmatterText(Block(ss) + rest, false) == Prepend(Concat(ss), FrontmatterText(rest, false))
  {
    var events := Block(ss) + rest;
    assert events[1..] == Texts(ss) + ([MetadataBlockEnd] + rest);
    TextsInBlock(ss, [MetadataBlockEnd] + rest);
    assert ([MetadataBlockEnd] + rest)[1..] == rest;
  }

  /** Several blocks: their texts are concatenated in stream order. */
  lemma TwoBlocks(ss1: seq<string>, between: seq<Event>, ss2: seq<string>)
    requires forall i :: 0 <= i < |between| ==> between[i] != MetadataBlockStart
    ensures FrontmatterText(Block(ss1) + between + Block(ss2), false) == Some(Concat(ss1) + Concat(ss2))
  {
    var second := Block(ss2);
    var rest := between + second;
    assert Block(ss1) + between + second == Block(ss1) + rest;
    BlockThenRest(ss1, rest);
    OutsideIgnored(between, second);
    assert second + [] == second;
    BlockThenRest(ss2, []);
    assert Concat(ss2) + [] == Concat(ss2);
  }

  /** A block left open at the end of the stream is not an error. */
  lemma UnclosedBlock(ss: seq<string>)
    ensures FrontmatterText([MetadataBlockStart] + Texts(ss), false) == Some(Concat(ss))
  {
    assert ([MetadataBlockStart] + Texts(ss))[1..] == Texts(ss) + [];
    TextsInBlock(ss, []);
  }

  /** Any event other than text or the block end, inside a block, is fatal. */
  lemma UnexpectedEventInBlock(ss: seq<string>, e: Event, rest: seq<Event>)
    requires e == MetadataBlockStart || e == OtherEvent
    ensures FrontmatterText([MetadataBlockStart] + Texts(ss) + [e] + rest, false).None?
  {
    var events := [MetadataBlockStart] + Texts(ss) + [e] + rest;
    assert events[1..] == Texts(ss) + ([e] + rest);
    TextsInBlock(ss, [e] + rest);
  }

  // ---------------------------------------------------------------------------
  // Tag extraction and the include decision
  // ---------------------------------------------------------------------------

  /** The YAML values the tag extraction tells apart. */
  datatype Value =
    | Str(s: string)
    | Sequence(items: seq<Value>)
    | OtherValue

  /** A decoded YAML mapping, keyed by its string keys. */
  type Frontmatter = map<string, Value>

  /** The string elements of `items`, in order; other elements are dropped. */
  function StringsOf(items: seq<Value>): (r: seq<string>)
    ensures |r| <= |items|
    ensures forall t :: t in r <==> Str(t) in items
  {
    if items == [] then []
    else (if items[0].Str? then [items[0].s] else []) + StringsOf(items[1..])
  }

  /** `StringsOf` keeps the order of the elements it keeps. */
  lemma {:induction false} StringsOfAppend(a: seq<Value>, b: seq<Value>)
    ensures StringsOf(a + b) == StringsOf(a) + StringsOf(b)
  {
    if a == [] {
      assert a + b == b;
    } else {
      assert (a + b)[0] == a[0];
      assert (a + b)[1..] == a[1..] + b;
      StringsOfAppend(a[1..], b);
    }
  }

  /** A sequence holding only strings yields exactly those strings. */
  lemma {:induction false} StringsOfAllStrings(ss: seq<string>)
    ensures StringsOf(seq(|ss|, i requires 0 <= i < |ss| => Str(ss[i]))) == ss
  {
    if ss != [] {
      var items := seq(|ss|, i requires 0 <= i < |ss| => Str(ss[i]));
      assert items[1..] == seq(|ss| - 1, i requires 0 <= i < |ss| - 1 => Str(ss[1..][i]));
      StringsOfAllStrings(ss[1..]);
    }
  }

  /**
   * The note's tags: the string elements of its `tags` sequence; none when
   * `tags` is missing or is not a sequence.
   */
  function ExtractTags(fm: Frontmatter): (tags: seq<string>)
    ensures ("tags" !in fm || !fm["tags"].Sequence?) ==> tags == []
    ensures forall t :: t in tags <==> ("tags" in fm && fm["tags"].Sequence? && Str(t) in fm["tags"].items)
  {
    if "tags" in fm && fm["tags"].Sequence? then StringsOf(fm["tags"].items) else []
  }

  /** `tags.iter().any(|tag| set.contains(tag))`. */
  function AnyIn(tags: seq<string>, s: set<string>): (r: bool)
    ensures r <==> exists i :: 0 <= i < |tags| && tags[i] in s
  {
    if tags == [] then false else tags[0] in s || AnyIn(tags[1..], s)
  }

  /** A note is selected iff some tag is included and no tag is excluded. */
  function Include(tags: seq<string>, included: set<string>, excluded: set<string>): (r: bool)
    ensures r <==> (exists t :: t in tags && t in included) && (forall t :: t in tags ==> t !in excluded)
  {
    AnyIn(tags, included) && !AnyIn(tags, excluded)
  }

  /** An empty include set selects nothing, and neither does an empty tag list. */
  lemma IncludeNeedsBoth(tags: seq<string>, included: set<string>, excluded: set<string>)
    ensures included == {} ==> !Include(tags, included, excluded)
    ensures tags == [] ==> !Include(tags, included, excluded)
  {
  }

  /** A note tagged `a` and `b` is selected by `{b}`, and no longer once `a` is excluded. */
  lemma IncludeExamples()
    ensures Include(["a", "b"], {"b"}, {})
    ensures !Include(["a", "b"], {"b"}, {"a"})
  {
    assert ["a", "b"][1] == "b";
    assert ["a", "b"][0] == "a";
  }

  // ---------------------------------------------------------------------------
  // is_markdown_file
  // ---------------------------------------------------------------------------

  /** The position of the last `c` in `s`, if any. */
  function LastIndexOf(s: string, c: char): (r: Option<nat>)
    ensures r.None? ==> forall i :: 0 <= i < |s| ==> s[i] != c
    ensures r.Some? ==> r.value < |s| && s[r.value] == c && forall i :: r.value < i < |s| ==> s[i] != c
  {
    if s == [] then None
    else if s[|s| - 1] == c then Some(|s| - 1)
    else LastIndexOf(s[..|s| - 1], c)
  }

  /**
   * `Path::file_name`: the last component, once empty and `.` components are
   * dropped; none when that component is `..` or there is none.
   */
  function FileName(p: Path): (r: Option<string>)
    ensures r.Some? ==> r.value != [] && r.value != "." && r.value != ".."
    ensures r.Some? ==> forall i :: 0 <= i < |r.value| ==> r.value[i] != '/'
    decreases |p|
  {
    match LastIndexOf(p, '/')
    case None => if p == [] || p == "." || p == ".." then None else Some(p)
    case Some(k) =>
      var last := p[k + 1..];
      if last == [] || last == "." then FileName(p[..k])
      else if last == ".." then None
      else Some(last)
  }

  /**
   * `Path::extension`: what follows the last `.` of the file name; none when
   * the name has no `.` or its only `.` is the first character.
   */
  function Extension(p: Path): (r: Option<string>)
    ensures r.Some? ==> FileName(p).Some?
    ensures r.Some? ==> (
      var name := FileName(p).value;
      && |r.value| + 2 <= |name|
      && name[|name| - |r.value| - 1..] == "." + r.value
      && '.' !in r.value)
    ensures FileName(p).Some? && (exists i :: 0 < i < |FileName(p).value| && FileName(p).value[i] == '.') ==> r.Some?
  {
    match FileName(p)
    case None => None
    case Some(name) =>
      match LastIndexOf(name, '.')
      case None => None
      case Some(k) => if k == 0 then None else Some(name[k + 1..])
  }

  /**
   * `is_markdown_file`: the extension is exactly `md`, that is, the file name
   * ends in `.md` after at least one other character.
   */
  function IsMarkdownFile(p: Path): (r: bool)
    ensures r <==> (FileName(p).Some? && |FileName(p).value| >= 4 && FileName(p).value[|FileName(p).value| - 3..] == ".md")
  {
    ExtensionMdIff(p);
    Extension(p) == Some("md")
  }

  /** The extension is `md` exactly when the file name ends in `.md` after at least one other character. */
  lemma ExtensionMdIff(p: Path)
    ensures Extension(p) == Some("md") <==>
      (FileName(p).Some? && |FileName(p).value| >= 4 && FileName(p).value[|FileName(p).value| - 3..] == ".md")
  {
    if FileName(p).Some? {
      NameExtensionMd(FileName(p).value);
    }
  }

  /** The text after the last `.` of `name`, not at its start, is `md` exactly when `name` ends in `.md` after another character. */
  lemma NameExtensionMd(name: string)
    ensures (LastIndexOf(name, '.').Some? && LastIndexOf(name, '.').value != 0 && name[LastIndexOf(name, '.').value + 1..] == "md")
      <==> (|name| >= 4 && name[|name| - 3..] == ".md")
  {
    if |name| >= 4 && name[|name| - 3..] == ".md" {
      MdSuffixExtension(name);
    }
  }

  /** A name ending in `.md` has its last `.` three characters from the end. */
  lemma MdSuffixExtension(name: string)
    requires |name| >= 4 && name[|name| - 3..] == ".md"
    ensures LastIndexOf(name, '.') == Some(|name| - 3)
    ensures name[|name| - 2..] == "md"
  {
    var n := |name|;
    assert name[n - 3] == '.' && name[n - 2] == 'm' && name[n - 1] == 'd';
    var r := LastIndexOf(name, '.');
    assert r.Some? && r.value >= n - 3;
    assert r.value != n - 2 && r.value != n - 1;
    assert name[n - 2..] == "md";
  }

  /** The file name of `dir/name` is `name`. */
  lemma FileNameOfJoin(dir: Path, name: string)
    requires name != [] && name != "." && name != ".."
    requires forall i :: 0 <= i < |name| ==> name[i] != '/'
    ensures FileName(dir + "/" + name) == Some(name)
  {
    var p := dir + "/" + name;
    assert p[|dir|] == '/';
    forall i | |dir| < i < |p| ensures p[i] != '/' {
      assert p[i] == name[i - |dir| - 1];
    }
    assert LastIndexOf(p, '/') == Some(|dir|);
    assert p[|dir| + 1..] == name;
  }

  /** A trailing `/` does not change the file name. */
  lemma FileNameTrailingSlash(p: Path)
    ensures FileName(p + "/") == FileName(p)
  {
    var q := p + "/";
    assert LastIndexOf(q, '/') == Some(|p|);
    assert q[|p| + 1..] == [];
    assert q[..|p|] == p;
  }

  /** `dir/name` is markdown when `name` ends in `.md` after at least one other character. */
  lemma MarkdownName(dir: Path, name: string)
    requires forall i :: 0 <= i < |name| ==> name[i] != '/'
    requires |name| >= 4 && name[|name| - 3..] == ".md"
    ensures IsMarkdownFile(dir + "/" + name)
    ensures IsMarkdownFile(dir + "/" + name + "/")
  {
    assert name != "." && name != "..";
    FileNameOfJoin(dir, name);
    FileNameTrailingSlash(dir + "/" + name);
  }

  /** `dir/name` is not markdown when `name` does not end in `.md`. */
  lemma NotMarkdownName(dir: Path, name: string)
    requires name != [] && name != "." && name != ".."
    requires forall i :: 0 <= i < |name| ==> name[i] != '/'
    requires |name| < 3 || name[|name| - 3..] != ".md"
    ensures !IsMarkdownFile(dir + "/" + name)
  {
    FileNameOfJoin(dir, name);
  }

  /** A file named just `.md` has no extension, so it is not markdown. */
  lemma HiddenMdNotMarkdown(dir: Path)
    ensures !IsMarkdownFile(dir + "/" + ".md")
  {
    FileNameOfJoin(dir, ".md");
  }

  // ---------------------------------------------------------------------------
  // test_note and index
  // ---------------------------------------------------------------------------

  /**
   * What the selection step gets from outside the crate: `read` stands for
   * reading a file and tokenising it (`None` when the read fails), `decode`
   * for decoding YAML metadata text (`None` when decoding fails).
   */
  datatype Env = Env(read: Path -> Option<seq<Event>>, decode: string -> Option<Frontmatter>)

  /**
   * The outcome of `test_note` on `src`: its first failure, or whether it is
   * selected by `included` and `excluded`. It composes the steps modelled
   * above (reading, `FrontmatterText`, decoding, `ExtractTags`, `Include`),
   * each of which has its own lemmas; `Copier.TestNote` is the same
   * composition written as the method steps and is proved equal to it.
   */
  function NoteVerdict(env: Env, src: Path, included: set<string>, excluded: set<string>): (r: Result<bool, CopyError>)
    ensures r.Err? ==> r.error.path == src
    ensures (r.Err? && r.error.ReadError?) <==> env.read(src).None?
  {
    match env.read(src)
    case None => Err(ReadError(src))
    case Some(events) =>
      match FrontmatterText(events, false)
      case None => Err(UnexpectedFrontmatterEvent(src))
      case Some(text) =>
        match env.decode(text)
        case None => Err(FrontmatterDecodeError(src))
        case Some(fm) => Ok(Include(ExtractTags(fm), included, excluded))
  }

  /**
   * A note is selected exactly when it was read, its metadata collected and
   * decoded, and one of its tags is in the include set and none in the
   * exclude set.
   */
  lemma NoteSelected(env: Env, src: Path, included: set<string>, excluded: set<string>)
    ensures NoteVerdict(env, src, included, excluded) == Ok(true) <==>
      (&& env.read(src).Some?
       && FrontmatterText(env.read(src).value, false).Some?
       && env.decode(FrontmatterText(env.read(src).value, false).value).Some?
       && var tags := ExtractTags(env.decode(FrontmatterText(env.read(src).value, false).value).value);
          (exists i :: 0 <= i < |tags| && tags[i] in included) && forall i :: 0 <= i < |tags| ==> tags[i] !in excluded)
  {
  }

  /**
   * A note without a metadata block is read without error and not selected,
   * provided empty metadata text decodes as the empty mapping, as
   * `frontmatter::from_str` arranges by decoding `{}` instead.
   */
  lemma NoMetadataNotSelected(env: Env, src: Path, included: set<string>, excluded: set<string>)
    requires env.read(src).Some? && MetadataBlockStart !in env.read(src).value
    requires env.decode([]) == Some(map[])
    ensures NoteVerdict(env, src, included, excluded) == Ok(false)
  {
    assert FrontmatterText(env.read(src).value, false) == Some([]);
    assert ExtractTags(map[]) == [];
  }

  /** `test_note` of a copier with tag sets `included` and `excluded`, as a function of the note. */
  function Verdicts(env: Env, included: set<string>, excluded: set<string>): (test: Path -> Result<bool, CopyError>)
    ensures forall f :: test(f) == NoteVerdict(env, f, included, excluded)
  {
    f => NoteVerdict(env, f, included, excluded)
  }

  /** What a run of `index` adds to the copy set, and the error that stopped it, if any. */
  datatype IndexOutcome = IndexOutcome(inserted: set<Path>, error: Option<CopyError>)

  /**
   * `index` over the vault listing `files`, with `test` the outcome of
   * `test_note` on each file: markdown files are tested in order, the
   * selected ones inserted, and the first error ends the run.
   */
  function IndexRun(files: seq<Path>, test: Path -> Result<bool, CopyError>): (r: IndexOutcome)
    ensures forall f :: f in r.inserted ==> f in files
    decreases |files|
  {
    if files == [] then IndexOutcome({}, None)
    else
      var rest := IndexRun(files[1..], test);
      if !IsMarkdownFile(files[0]) then rest
      else
        match test(files[0])
        case Err(e) => IndexOutcome({}, Some(e))
        case Ok(selected) => IndexOutcome((if selected then {files[0]} else {}) + rest.inserted, rest.error)
  }

  /** The markdown files of `files` whose test selects them. */
  function Selected(files: seq<Path>, test: Path -> Result<bool, CopyError>): set<Path>
  {
    set f | f in files && IsMarkdownFile(f) && test(f) == Ok(true)
  }

  lemma SelectedCons(files: seq<Path>, test: Path -> Result<bool, CopyError>)
    requires files != []
    ensures Selected(files, test) ==
      (if IsMarkdownFile(files[0]) && test(files[0]) == Ok(true) then {files[0]} else {}) + Selected(files[1..], test)
  {
    assert files == [files[0]] + files[1..];
  }

  /** `index` inserts only markdown files that `test_note` selects. */
  lemma {:induction false} IndexInsertsOnlySelected(files: seq<Path>, test: Path -> Result<bool, CopyError>)
    ensures IndexRun(files, test).inserted <= Selected(files, test)
  {
    if files != [] {
      IndexInsertsOnlySelected(files[1..], test);
      SelectedCons(files, test);
    }
  }

  /** A run has no error exactly when `test_note` succeeds on every markdown file. */
  lemma {:induction false} IndexOkIff(files: seq<Path>, test: Path -> Result<bool, CopyError>)
    ensures IndexRun(files, test).error.None? <==>
      forall i :: 0 <= i < |files| && IsMarkdownFile(files[i]) ==> test(files[i]).Ok?
  {
    if files != [] {
      IndexOkIff(files[1..], test);
      forall i | 1 <= i < |files| ensures files[i] == files[1..][i - 1] {}
    }
  }

  /** A run without error inserts exactly the selected markdown files. */
  lemma {:induction false} IndexOkExact(files: seq<Path>, test: Path -> Result<bool, CopyError>)
    requires IndexRun(files, test).error.None?
    ensures IndexRun(files, test).inserted == Selected(files, test)
  {
    if files != [] {
      IndexOkExact(files[1..], test);
      SelectedCons(files, test);
    }
  }

  /** The position of the first markdown file whose test fails, or `|files|` when none does. */
  function FirstFailure(files: seq<Path>, test: Path -> Result<bool, CopyError>): (k: nat)
    ensures k <= |files|
    ensures forall j :: 0 <= j < k && IsMarkdownFile(files[j]) ==> test(files[j]).Ok?
    ensures k < |files| ==> IsMarkdownFile(files[k]) && test(files[k]).Err?
  {
    if files == [] then 0
    else if IsMarkdownFile(files[0]) && test(files[0]).Err? then 0
    else 1 + FirstFailure(files[1..], test)
  }

  /**
   * A run that fails stops at the first markdown file whose test fails,
   * with that file's error, having inserted exactly the selected files
   * before it.
   */
  lemma {:induction false} IndexStopsAtFirstError(files: seq<Path>, test: Path -> Result<bool, CopyError>)
    requires IndexRun(files, test).error.Some?
    ensures FirstFailure(files, test) < |files|
    ensures Err(IndexRun(files, test).error.value) == test(files[FirstFailure(files, test)])
    ensures IndexRun(files, test).inserted == Selected(files[..FirstFailure(files, test)], test)
  {
    if IsMarkdownFile(files[0]) && test(files[0]).Err? {
      IndexRunFailing(files, test);
      assert files[..0] == [];
    } else {
      var tail := files[1..];
      IndexRunPassing(files, test);
      IndexStopsAtFirstError(tail, test);
      var k := FirstFailure(tail, test);
      assert FirstFailure(files, test) == k + 1;
      SelectedPrefixCons(files, k, test);
    }
  }

  /** `Selected` of a non-empty prefix, split at its first file. */
  lemma SelectedPrefixCons(files: seq<Path>, k: nat, test: Path -> Result<bool, CopyError>)
    requires k < |files|
    ensures Selected(files[..k + 1], test) ==
      (if IsMarkdownFile(files[0]) && test(files[0]) == Ok(true) then {files[0]} else {}) + Selected(files[1..][..k], test)
  {
    var prefix := files[..k + 1];
    assert prefix[0] == files[0] && prefix[1..] == files[1..][..k];
    SelectedCons(prefix, test);
  }

  /** A markdown file whose test passes adds itself, if selected, to what the rest of the run inserts. */
  lemma IndexRunPassing(files: seq<Path>, test: Path -> Result<bool, CopyError>)
    requires files != [] && !(IsMarkdownFile(files[0]) && test(files[0]).Err?)
    ensures IndexRun(files, test).error == IndexRun(files[1..], test).error
    ensures IndexRun(files, test).inserted ==
      (if IsMarkdownFile(files[0]) && test(files[0]) == Ok(true) then {files[0]} else {}) + IndexRun(files[1..], test).inserted
  {
  }

  /** One step of `index` over `files[i]`, when its test does not fail: what is inserted so far grows by `Added`. */
  lemma IndexStep(files: seq<Path>, i: nat, test: Path -> Result<bool, CopyError>, inserted: set<Path>)
    requires i < |files| && !(IsMarkdownFile(files[i]) && test(files[i]).Err?)
    requires IndexRun(files, test).inserted == inserted + IndexRun(files[i..], test).inserted
    requires IndexRun(files, test).error == IndexRun(files[i..], test).error
    ensures IndexRun(files, test).inserted == (inserted + Added(files[i], test)) + IndexRun(files[i + 1..], test).inserted
    ensures IndexRun(files, test).error == IndexRun(files[i + 1..], test).error
  {
    assert files[i..][0] == files[i] && files[i..][1..] == files[i + 1..];
    IndexRunPassing(files[i..], test);
  }

  /** What `index` inserts for one file whose test does not fail. */
  function Added(f: Path, test: Path -> Result<bool, CopyError>): set<Path>
  {
    if IsMarkdownFile(f) && test(f) == Ok(true) then {f} else {}
  }

  /** A markdown file whose test fails ends the run with that error and nothing inserted. */
  lemma IndexRunFailing(files: seq<Path>, test: Path -> Result<bool, CopyError>)
    requires files != [] && IsMarkdownFile(files[0]) && test(files[0]).Err?
    ensures IndexRun(files, test) == IndexOutcome({}, Some(test(files[0]).error))
  {
  }

  /** The same, for the file at position `i` and the run from there on. */
  lemma IndexRunFailingAt(files: seq<Path>, i: nat, test: Path -> Result<bool, CopyError>)
    requires i < |files| && IsMarkdownFile(files[i]) && test(files[i]).Err?
    ensures IndexRun(files[i..], test) == IndexOutcome({}, Some(test(files[i]).error))
  {
    assert files[i..][0] == files[i];
    IndexRunFailing(files[i..], test);
  }

  /** Set union regrouped. */
  lemma UnionRegroup(a: set<Path>, b: set<Path>, c: set<Path>)
    ensures a + b + c == a + (b + c)
  {
  }

  /** Whatever the outcome, `index` never inserts a file that is not markdown. */
  lemma IndexOnlyMarkdown(files: seq<Path>, test: Path -> Result<bool, CopyError>, f: Path)
    requires !IsMarkdownFile(f)
    ensures f !in IndexRun(files, test).inserted
  {
    IndexInsertsOnlySelected(files, test);
  }

  /** The note `A.md` of the example below: tagged `keep`, with an embed after its metadata. */
  lemma ExampleNoteA(env: Env, a: Path)
    requires env.read(a) == Some([MetadataBlockStart, Text("tags: [keep]"), MetadataBlockEnd, Text("![[img.png]]")])
    requires env.decode("tags: [keep]") == Some(map["tags" := Sequence([Str("keep")])])
    ensures NoteVerdict(env, a, {"keep"}, {}) == Ok(true)
  {
    var events := env.read(a).value;
    var rest := [Text("![[img.png]]")];
    assert events == Block(["tags: [keep]"]) + rest;
    BlockThenRest(["tags: [keep]"], rest);
    ConcatSingle("tags: [keep]");
    assert FrontmatterText(events, false) == Some("tags: [keep]");
    var fm := map["tags" := Sequence([Str("keep")])];
    assert StringsOf([Str("keep")]) == ["keep"];
    assert ExtractTags(fm) == ["keep"];
    assert Include(["keep"], {"keep"}, {});
  }

  /** The note `B.md` of the example below: tagged `drop`. */
  lemma ExampleNoteB(env: Env, b: Path)
    requires env.read(b) == Some([MetadataBlockStart, Text("tags: [drop]"), MetadataBlockEnd])
    requires env.decode("tags: [drop]") == Some(map["tags" := Sequence([Str("drop")])])
    ensures NoteVerdict(env, b, {"keep"}, {}) == Ok(false)
  {
    var events := env.read(b).value;
    assert events == Block(["tags: [drop]"]) + [];
    BlockThenRest(["tags: [drop]"], []);
    ConcatSingle("tags: [drop]");
    assert "tags: [drop]" + [] == "tags: [drop]";
    assert FrontmatterText(events, false) == Some("tags: [drop]");
    var fm := map["tags" := Sequence([Str("drop")])];
    assert StringsOf([Str("drop")]) == ["drop"];
    assert ExtractTags(fm) == ["drop"];
    assert "drop"[0] != "keep"[0];
    assert !Include(["drop"], {"keep"}, {});
  }

  /**
   * A vault of `A.md` (tagged `keep`, embedding `img.png`), `B.md` (tagged
   * `drop`) and `img.png`, filtered by `{keep}`: only `A.md` is inserted.
   * The embedded attachment is not, since references are not followed.
   */
  lemma SelectionExample(env: Env, dir: Path)
    requires env.read(dir + "/A.md") == Some([MetadataBlockStart, Text("tags: [keep]"), MetadataBlockEnd, Text("![[img.png]]")])
    requires env.read(dir + "/B.md") == Some([MetadataBlockStart, Text("tags: [drop]"), MetadataBlockEnd])
    requires env.decode("tags: [keep]") == Some(map["tags" := Sequence([Str("keep")])])
    requires env.decode("tags: [drop]") == Some(map["tags" := Sequence([Str("drop")])])
    ensures IndexRun([dir + "/A.md", dir + "/B.md", dir + "/img.png"], f => NoteVerdict(env, f, {"keep"}, {}))
            == IndexOutcome({dir + "/A.md"}, None)
  {
    var test := f => NoteVerdict(env, f, {"keep"}, {});
    ExampleNoteA(env, dir + "/A.md");
    ExampleNoteB(env, dir + "/B.md");
    ExamplePaths(dir);
    ExampleVault(dir + "/A.md", dir + "/B.md", dir + "/img.png", test);
  }

  /** Which files of the example vault are markdown. */
  lemma ExamplePaths(dir: Path)
    ensures IsMarkdownFile(dir + "/A.md") && IsMarkdownFile(dir + "/B.md") && !IsMarkdownFile(dir + "/img.png")
  {
    ExampleMarkdown(dir, "/A.md");
    ExampleMarkdown(dir, "/B.md");
    ExampleImage(dir);
  }

  lemma ExampleMarkdown(dir: Path, file: string)
    requires file == "/A.md" || file == "/B.md"
    ensures IsMarkdownFile(dir + file)
  {
    var name := file[1..];
    assert name[1..] == ".md";
    assert dir + file == dir + "/" + name;
    MarkdownName(dir, name);
  }

  lemma ExampleImage(dir: Path)
    ensures !IsMarkdownFile(dir + "/img.png")
  {
    var name := "img.png";
    assert name[4..] != ".md";
    assert dir + "/img.png" == dir + "/" + name;
    NotMarkdownName(dir, name);
  }

  /** The run of the example above, for any per-note test with the same outcomes. */
  lemma ExampleVault(a: Path, b: Path, c: Path, test: Path -> Result<bool, CopyError>)
    requires IsMarkdownFile(a) && IsMarkdownFile(b) && !IsMarkdownFile(c)
    requires test(a) == Ok(true) && test(b) == Ok(false)
    ensures IndexRun([a, b, c], test) == IndexOutcome({a}, None)
  {
    assert [c][1..] == [];
    assert IndexRun([c], test) == IndexOutcome({}, None);
    assert [b, c][1..] == [c];
    assert IndexRun([b, c], test) == IndexOutcome({}, None);
    assert [a, b, c][1..] == [b, c];
  }

  /**
   * `Copier`: the tag filters and the set of files to copy, which
   * `include_tags`, `exclude_tags` and `index` update in place.
   */
  class Copier {
    const root: Path
    const destination: Path
    var includeTags: set<string>
    var excludeTags: set<string>
    var toCopy: set<Path>

    /** `Copier::new`: no tag filters and nothing to copy yet. */
    constructor (root: Path, destination: Path)
      ensures this.root == root && this.destination == destination
      ensures includeTags == {} && excludeTags == {} && toCopy == {}
    {
      this.root := root;
      this.destination := destination;
      includeTags := {};
      excludeTags := {};
      toCopy := {};
    }

    /** `include_tags`: adds `tags` to the include set and changes nothing else. */
    method IncludeTags(tags: seq<string>)
      modifies this`includeTags
      ensures includeTags == old(includeTags) + (set t | t in tags)
    {
      includeTags := includeTags + (set t | t in tags);
    }

    /** `exclude_tags`: adds `tags` to the exclude set and changes nothing else. */
    method ExcludeTags(tags: seq<string>)
      modifies this`excludeTags
      ensures excludeTags == old(excludeTags) + (set t | t in tags)
    {
      excludeTags := excludeTags + (set t | t in tags);
    }

    /** `test_note`: reads `src`, collects and decodes its metadata, and applies the tag filters. */
    method TestNote(env: Env, src: Path) returns (r: Result<bool, CopyError>)
      ensures r == NoteVerdict(env, src, includeTags, excludeTags)
    {
      var content := env.read(src);
      if content.None? {
        return Err(ReadError(src));
      }
      var text := CollectFrontmatter(content.value);
      if text.None? {
        return Err(UnexpectedFrontmatterEvent(src));
      }
      var fm := env.decode(text.value);
      if fm.None? {
        return Err(FrontmatterDecodeError(src));
      }
      var tags := ExtractTags(fm.value);
      return Ok(Include(tags, includeTags, excludeTags));
    }

    /**
     * The closure `index` applies to each markdown file: test the note, insert
     * it into `toCopy` when selected, and pass on the test's error.
     */
    method Visit(env: Env, file: Path) returns (r: Result<(), CopyError>)
      modifies this`toCopy
      ensures var v := NoteVerdict(env, file, includeTags, excludeTags);
              && (r.Err? <==> v.Err?)
              && (r.Err? ==> r.error == v.error)
              && toCopy == old(toCopy) + (if v == Ok(true) then {file} else {})
    {
      var verdict := TestNote(env, file);
      if verdict.Err? {
        return Err(verdict.error);
      }
      if verdict.value {
        toCopy := toCopy + {file};
      }
      return Ok(());
    }

    /**
     * One file of the vault listing in `index`: skipped unless it is a
     * markdown file, otherwise handed to `Visit`.
     */
    method IndexFile(env: Env, file: Path) returns (r: Result<(), CopyError>)
      modifies this`toCopy
      ensures var test := Verdicts(env, includeTags, excludeTags);
              && (r.Err? <==> IsMarkdownFile(file) && test(file).Err?)
              && (r.Err? ==> Err(r.error) == test(file))
              && toCopy == old(toCopy) + Added(file, test)
    {
      ghost var test := Verdicts(env, includeTags, excludeTags);
      if IsMarkdownFile(file) {
        r := Visit(env, file);
        assert test(file) == NoteVerdict(env, file, includeTags, excludeTags);
      } else {
        r := Ok(());
      }
    }

    /**
     * `index`: tests every markdown file of the vault listing `vault` in
     * order, inserting the selected ones into `toCopy`, and stops at the
     * first error.
     */
    method Index(env: Env, vault: seq<Path>) returns (r: Result<(), CopyError>)
      modifies this`toCopy
      ensures var run := IndexRun(vault, Verdicts(env, includeTags, excludeTags));
              && toCopy == old(toCopy) + run.inserted
              && (r.Ok? <==> run.error.None?)
              && (r.Err? ==> run.error == Some(r.error))
    {
      ghost var test := Verdicts(env, includeTags, excludeTags);
      ghost var inserted: set<Path> := {};
      var i := 0;
      assert vault[i..] == vault;
      while i < |vault|
        invariant 0 <= i <= |vault|
        invariant toCopy == old(toCopy) + inserted
        invariant IndexRun(vault, test).inserted == inserted + IndexRun(vault[i..], test).inserted
        invariant IndexRun(vault, test).error == IndexRun(vault[i..], test).error
      {
        var step := IndexFile(env, vault[i]);
        if step.Err? {
          IndexRunFailingAt(vault, i, test);
          return Err(step.error);
        }
        IndexStep(vault, i, test, inserted);
        UnionRegroup(old(toCopy), inserted, Added(vault[i], test));
        inserted := inserted + Added(vault[i], test);
        i := i + 1;
      }
      assert vault[i..] == [];
      return Ok(());
    }
  }
}
