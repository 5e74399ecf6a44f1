/**
 * The note-reference model of `src/references.rs`: splitting the text inside
 * `[[...]]` / `![[...]]` into file, section and label, and the small mutable
 * record `RefParser` that a token-driven reference scanner keeps its state in.
 */
module References {
  import opened Wrappers
  import opened Strings

  // ---------------------------------------------------------------------------
  // The pattern `^(?P<file>[^#|]+)??(#(?P<section>.+?))??(\|(?P<label>.+?))??$`
  // ---------------------------------------------------------------------------

  /** The two characters the `[^#|]` class of the file group excludes. */
  predicate IsDelimiter(c: char)
  {
    c == '#' || c == '|'
  }

  /** `.` matches every character except a line feed. */
  predicate NoNewline(s: string)
  {
    forall i :: 0 <= i < |s| ==> s[i] != '\n'
  }

  predicate NoDelimiter(s: string)
  {
    forall i :: 0 <= i < |s| ==> !IsDelimiter(s[i])
  }

  /** The text captured by the three named groups; `None` for a group that took no part. */
  datatype Captures = Captures(file: Option<string>, section: Option<string>, labelText: Option<string>)

  /** The section and label groups alone: what follows the file group. */
  datatype Tail = Tail(section: Option<string>, labelText: Option<string>)

  /** The text a group contributes to the whole match, with its leading literal. */
  function Part(g: Option<string>, lead: string): string
  {
    if g.Some? then lead + g.value else []
  }

  /**
   * The language of the pattern: `c` is one way the whole of `t` matches it.
   * The file group is one or more characters other than `#` and `|` (line feeds
   * allowed); section and label are one or more characters other than a line feed.
   */
  predicate Matches(t: string, c: Captures)
  {
    && (c.file.Some? ==> c.file.value != [] && NoDelimiter(c.file.value))
    && (c.section.Some? ==> c.section.value != [] && NoNewline(c.section.value))
    && (c.labelText.Some? ==> c.labelText.value != [] && NoNewline(c.labelText.value))
    && t == Part(c.file, "") + Part(c.section, "#") + Part(c.labelText, "|")
  }

  /** `tl` is one way the section and label groups match all of `r`. */
  predicate TailMatches(r: string, tl: Tail)
  {
    && (tl.section.Some? ==> tl.section.value != [] && NoNewline(tl.section.value))
    && (tl.labelText.Some? ==> tl.labelText.value != [] && NoNewline(tl.labelText.value))
    && r == Part(tl.section, "#") + Part(tl.labelText, "|")
  }

  /**
   * Leftmost-first priority between two matches of an optional group: a lazy
   * `??` tries the group's absence first; inside a present group a greedy `+`
   * tries longer first and a lazy `+?` shorter first.
   */
  predicate GroupBefore(a: Option<string>, b: Option<string>, greedy: bool)
  {
    || (a.None? && b.Some?)
    || (a.Some? && b.Some? && (if greedy then |a.value| > |b.value| else |a.value| < |b.value|))
  }

  /**
   * `a` is tried before `b` by the section and label groups, given the same
   * file group: the section is decided first, then the label.
   */
  predicate TailBefore(a: Tail, b: Tail)
  {
    || GroupBefore(a.section, b.section, false)
    || (a.section == b.section && GroupBefore(a.labelText, b.labelText, false))
  }

  /**
   * `a` is tried before `b` by a backtracking (leftmost-first) search, which
   * decides the groups from left to right.
   */
  predicate Before(a: Captures, b: Captures)
  {
    || GroupBefore(a.file, b.file, true)
    || (a.file == b.file && TailBefore(Tail(a.section, a.labelText), Tail(b.section, b.labelText)))
  }

  /** The longest prefix of `t` that the file group `[^#|]+` can consume. */
  function FilePrefix(t: string): (p: string)
    ensures |p| <= |t| && p == t[..|p|]
    ensures NoDelimiter(p)
    ensures |p| == |t| || IsDelimiter(t[|p|])
  {
    if t == [] || IsDelimiter(t[0]) then [] else [t[0]] + FilePrefix(t[1..])
  }

  /**
   * Where the lazy section group stops inside `s` (the text after `#`),
   * trying lengths from `k` upward: at the first `|` that has a non-empty label
   * after it, or at the end of `s`.
   */
  function SectionEnd(s: string, k: nat): (e: nat)
    requires 1 <= k <= |s|
    ensures k <= e <= |s|
    ensures e == |s| || (s[e] == '|' && e + 1 < |s|)
    ensures forall j :: k <= j < e ==> !(s[j] == '|' && j + 1 < |s|)
    decreases |s| - k
  {
    if k == |s| || (s[k] == '|' && k + 1 < |s|) then k else SectionEnd(s, k + 1)
  }

  /** The groups after `#`: the section up to `SectionEnd`, then the label, if any. */
  function SectionTail(s: string): Tail
    requires s != []
  {
    var e := SectionEnd(s, 1);
    Tail(Some(s[..e]), if e == |s| then None else Some(s[e + 1..]))
  }

  /**
   * How the section and label groups match `r`, the text after the file
   * group (empty, or starting with `#` or `|`); `None` when they cannot.
   */
  function CaptureTail(r: string): Option<Tail>
    requires r == [] || IsDelimiter(r[0])
  {
    if r == [] then Some(Tail(None, None))
    else if |r| == 1 || !NoNewline(r[1..]) then None
    else if r[0] == '|' then Some(Tail(None, Some(r[1..])))
    else Some(SectionTail(r[1..]))
  }

  /**
   * The captures the anchored pattern yields on `t`, or `None` when it does
   * not match at all. A left-to-right split: the file part is the longest
   * prefix without `#` or `|`; what follows it must be empty, `|label` or
   * `#section[|label]`.
   */
  function Capture(t: string): (r: Option<Captures>)
    ensures r.Some? ==> Matches(t, r.value)
  {
    var p := FilePrefix(t);
    match CaptureTail(t[|p|..])
    case None => None
    case Some(tl) =>
      CaptureTailSound(t[|p|..]);
      assert t == p + t[|p|..];
      JoinMatch(p, t[|p|..], tl);
      Some(Captures(if p == [] then None else Some(p), tl.section, tl.labelText))
  }

  /** The file group can stop only where `FilePrefix` stops. */
  lemma {:induction false} FilePrefixUnique(t: string, f: string)
    requires |f| <= |t| && f == t[..|f|] && NoDelimiter(f)
    requires |f| == |t| || IsDelimiter(t[|f|])
    ensures FilePrefix(t) == f
  {
    if t != [] && !IsDelimiter(t[0]) {
      FilePrefixUnique(t[1..], f[1..]);
    }
  }

  /** Every result of `CaptureTail` is a match of the section and label groups. */
  lemma CaptureTailSound(r: string)
    requires r == [] || IsDelimiter(r[0])
    requires CaptureTail(r).Some?
    ensures TailMatches(r, CaptureTail(r).value)
  {
    if r == [] {
    } else if r[0] == '|' {
      assert r == "|" + r[1..];
    } else {
      SectionTailSound(r[1..]);
      assert r == "#" + r[1..];
    }
  }

  /** `SectionTail` splits `s` into a section and an optional `|label`. */
  lemma SectionTailSound(s: string)
    requires |s| >= 1 && NoNewline(s)
    ensures var tl := SectionTail(s);
            && tl.section.Some?
            && TailMatches("#" + s, tl)
  {
    var e := SectionEnd(s, 1);
    var sec := s[..e];
    assert NoNewline(sec) by {
      forall i | 0 <= i < |sec| ensures sec[i] != '\n' {
        assert sec[i] == s[i];
      }
    }
    if e < |s| {
      var lab := s[e + 1..];
      assert NoNewline(lab) by {
        forall i | 0 <= i < |lab| ensures lab[i] != '\n' {
          assert lab[i] == s[e + 1 + i];
        }
      }
      assert s == sec + "|" + lab;
    } else {
      assert sec == s;
    }
  }

  /** Whenever the section and label groups can match `r`, `CaptureTail` finds the first match. */
  lemma CaptureTailFirst(r: string, tl: Tail)
    requires r == [] || IsDelimiter(r[0])
    requires TailMatches(r, tl)
    ensures CaptureTail(r).Some? && !TailBefore(tl, CaptureTail(r).value)
  {
    if tl.section.Some? {
      var sd := tl.section.value;
      var s := r[1..];
      var rest := Part(tl.labelText, "|");
      assert s == sd + rest;
      assert NoNewline(s) by {
        forall i | 0 <= i < |s| ensures s[i] != '\n' {
          if i >= |sd| {
            assert s[i] == rest[i - |sd|];
          }
        }
      }
      var e := SectionEnd(s, 1);
      if tl.labelText.Some? {
        assert s[|sd|] == '|';
        assert s[|sd| + 1..] == tl.labelText.value;
      }
      assert e <= |sd|;
      assert s[..|sd|] == sd;
    } else if tl.labelText.Some? {
      assert r[1..] == tl.labelText.value;
    }
  }

  /** What follows the file group in a match is empty or starts with `#` or `|`. */
  lemma TailStartsWithDelimiter(tl: Tail)
    ensures var rest := Part(tl.section, "#") + Part(tl.labelText, "|");
            rest == [] || IsDelimiter(rest[0])
  {
    if tl.section.Some? {
      assert (Part(tl.section, "#") + Part(tl.labelText, "|"))[0] == '#';
    } else if tl.labelText.Some? {
      assert (Part(tl.section, "#") + Part(tl.labelText, "|"))[0] == '|';
    }
  }

  /** Any match of the pattern has `FilePrefix(t)` as its file group (absent when empty). */
  lemma FileGroupUnique(t: string, d: Captures)
    requires Matches(t, d)
    ensures d.file == (if FilePrefix(t) == [] then None else Some(FilePrefix(t)))
    ensures TailMatches(t[|FilePrefix(t)|..], Tail(d.section, d.labelText))
  {
    var f := Part(d.file, "");
    var rest := Part(d.section, "#") + Part(d.labelText, "|");
    TailStartsWithDelimiter(Tail(d.section, d.labelText));
    assert d.file.Some? ==> f == d.file.value && f != [];
    assert d.file.None? ==> f == [];
    assert NoDelimiter(f);
    assert t == f + rest;
    FilePrefixOf(f, rest);
    assert TailMatches(rest, Tail(d.section, d.labelText));
  }

  /** A file group followed by a match of the section and label groups is a match of the pattern. */
  lemma JoinMatch(p: string, r: string, tl: Tail)
    requires NoDelimiter(p) && TailMatches(r, tl)
    ensures Matches(p + r, Captures(if p == [] then None else Some(p), tl.section, tl.labelText))
  {
    var a, b := Part(tl.section, "#"), Part(tl.labelText, "|");
    assert Part(if p == [] then None else Some(p), "") == p;
    assert p + (a + b) == p + a + b;
  }

  /**
   * Completeness and priority: whenever the pattern can match `t` at all,
   * `Capture` succeeds, and no match is tried before the one it returns.
   */
  lemma CaptureFirst(t: string, d: Captures)
    requires Matches(t, d)
    ensures Capture(t).Some? && !Before(d, Capture(t).value)
  {
    FileGroupUnique(t, d);
    CaptureTailFirst(t[|FilePrefix(t)|..], Tail(d.section, d.labelText));
  }

  /** The anchored pattern fails to match exactly when it has no match at all. */
  lemma CaptureNoneIff(t: string)
    ensures Capture(t).None? <==> forall d :: !Matches(t, d)
  {
    if Capture(t).None? {
      forall d ensures !Matches(t, d) {
        if Matches(t, d) {
          CaptureFirst(t, d);
        }
      }
    }
  }

  // ---------------------------------------------------------------------------
  // ObsidianNoteReference::from_str
  // ---------------------------------------------------------------------------

  /** `ObsidianNoteReference`: the parts of a `[[note]]` or `![[embed]]` reference. */
  datatype NoteReference = NoteReference(file: Option<string>, section: Option<string>, labelText: Option<string>)

  function TrimGroup(g: Option<string>): Option<string>
  {
    if g.Some? then Some(Trim(g.value)) else None
  }

  /**
   * `ObsidianNoteReference::from_str`: the captures with file and section
   * trimmed and the label verbatim. `None` stands for the panic raised when
   * the pattern does not match.
   */
  function FromStr(text: string): (r: Option<NoteReference>)
    ensures r.None? <==> forall c :: !Matches(text, c)
    ensures r.Some? && r.value.file.Some? ==> NoOuterWhitespace(r.value.file.value)
    ensures r.Some? && r.value.section.Some? ==> NoOuterWhitespace(r.value.section.value)
    ensures r.Some? && r.value.labelText.Some? ==> r.value.labelText.value != [] && NoNewline(r.value.labelText.value)
  {
    CaptureNoneIff(text);
    match Capture(text)
    case None => None
    case Some(c) => Some(NoteReference(TrimGroup(c.file), TrimGroup(c.section), c.labelText))
  }

  /**
   * The file part is the trimmed longest prefix without `#` or `|`, and it is
   * absent exactly when the text is empty or starts with `#` or `|`.
   */
  lemma FileIsTrimmedPrefix(text: string)
    requires FromStr(text).Some?
    ensures FromStr(text).value.file.None? <==> (text == [] || IsDelimiter(text[0]))
    ensures FromStr(text).value.file.Some? ==> FromStr(text).value.file.value == Trim(FilePrefix(text))
  {
    var p := FilePrefix(text);
    assert text != [] && !IsDelimiter(text[0]) ==> p != [];
  }

  /** Empty reference text parses, with no file, section or label. */
  lemma EmptyText()
    ensures FromStr("") == Some(NoteReference(None, None, None))
  {
  }

  /** The file value the pattern gives a delimiter-free prefix `f`. */
  function FileOf(f: string): Option<string>
  {
    if f == [] then None else Some(Trim(f))
  }

  /** `FilePrefix` of `f + tail` is `f` when `tail` is empty or starts with a delimiter. */
  lemma FilePrefixOf(f: string, tail: string)
    requires NoDelimiter(f)
    requires tail == [] || IsDelimiter(tail[0])
    ensures FilePrefix(f + tail) == f
    ensures (f + tail)[|f|..] == tail
  {
    assert (f + tail)[..|f|] == f;
    FilePrefixUnique(f + tail, f);
  }

  /** Text without `#` and `|` is a bare file reference. */
  lemma NoDelimiters(text: string)
    requires NoDelimiter(text)
    ensures FromStr(text) == Some(NoteReference(FileOf(text), None, None))
  {
    FilePrefixOf(text, []);
    assert text + [] == text;
  }

  /**
   * The full form `F#S|L`: file and section come out trimmed, the label
   * exactly as written.
   */
  lemma FullForm(f: string, s: string, l: string)
    requires f != [] && NoDelimiter(f)
    requires s != [] && NoDelimiter(s) && NoNewline(s)
    requires l != [] && NoNewline(l)
    ensures FromStr(f + "#" + s + "|" + l) == Some(NoteReference(Some(Trim(f)), Some(Trim(s)), Some(l)))
  {
    var sl := s + "|" + l;
    assert f + "#" + s + "|" + l == f + ("#" + sl);
    FilePrefixOf(f, "#" + sl);
    SectionThenLabel(s, l);
  }

  /** After `#`, the text `S|L` splits at its first `|` into section `S` and label `L`. */
  lemma SectionThenLabel(s: string, l: string)
    requires s != [] && NoDelimiter(s) && NoNewline(s)
    requires l != [] && NoNewline(l)
    ensures CaptureTail("#" + (s + "|" + l)) == Some(Tail(Some(s), Some(l)))
  {
    var sl := s + "|" + l;
    assert ("#" + sl)[1..] == sl;
    forall j | 0 <= j < |s| ensures sl[j] == s[j] {}
    assert NoNewline(sl) by {
      forall i | |s| < i < |sl| ensures sl[i] == l[i - |s| - 1] {}
    }
    assert sl[|s|] == '|';
    assert SectionEnd(sl, 1) == |s|;
    assert sl[..|s|] == s;
    assert sl[|s| + 1..] == l;
  }

  /**
   * `F|L` with no section: the label is everything after the first `|`,
   * verbatim, even when it holds `#`, `|` or surrounding blanks.
   */
  lemma FileAndLabel(f: string, l: string)
    requires f != [] && NoDelimiter(f)
    requires l != [] && NoNewline(l)
    ensures FromStr(f + "|" + l) == Some(NoteReference(Some(Trim(f)), None, Some(l)))
  {
    assert f + "|" + l == f + ("|" + l);
    FilePrefixOf(f, "|" + l);
    assert ("|" + l)[1..] == l;
  }

  /**
   * A `|` right after `#` cannot end the section (the section needs one
   * character first), so `F#|x` has the section `|x` and no label.
   */
  lemma BarRightAfterHash(f: string, x: string)
    requires NoDelimiter(f)
    requires x != [] && NoDelimiter(x) && NoNewline(x)
    ensures FromStr(f + "#|" + x) == Some(NoteReference(FileOf(f), Some(Trim("|" + x)), None))
  {
    var s := "|" + x;
    assert f + "#|" + x == f + ("#" + s);
    FilePrefixOf(f, "#" + s);
    assert ("#" + s)[1..] == s;
    forall j | 1 <= j < |s| ensures s[j] == x[j - 1] {}
    assert SectionEnd(s, 1) == |s|;
    assert s[..|s|] == s;
    assert CaptureTail("#" + s) == Some(Tail(Some(s), None));
  }

  /**
   * A `|` with nothing after it cannot start a label, so `F#S|` has the
   * section `S|` and no label.
   */
  lemma BarAtEnd(f: string, s: string)
    requires NoDelimiter(f)
    requires s != [] && NoDelimiter(s) && NoNewline(s)
    ensures FromStr(f + "#" + s + "|") == Some(NoteReference(FileOf(f), Some(Trim(s + "|")), None))
  {
    var sb := s + "|";
    assert f + "#" + s + "|" == f + ("#" + sb);
    FilePrefixOf(f, "#" + sb);
    assert ("#" + sb)[1..] == sb;
    forall j | 0 <= j < |s| ensures sb[j] == s[j] {}
    assert SectionEnd(sb, 1) == |sb|;
    assert sb[..|sb|] == sb;
    assert CaptureTail("#" + sb) == Some(Tail(Some(sb), None));
  }

  /**
   * The only failures (the panic): the text after the file part is a lone `#`
   * or `|`, or a line feed follows that `#` or `|`.
   */
  lemma FailureIff(text: string)
    ensures var r := text[|FilePrefix(text)|..];
            FromStr(text).None? <==> (r != [] && (|r| == 1 || !NoNewline(r[1..])))
  {
  }

  /** `A#`, `A|` and `|` (a delimiter with nothing after it) do not parse. */
  lemma DanglingDelimiter(f: string, d: char)
    requires NoDelimiter(f) && IsDelimiter(d)
    ensures FromStr(f + [d]).None?
  {
    FilePrefixOf(f, [d]);
  }

  // ---------------------------------------------------------------------------
  // RefParser
  // ---------------------------------------------------------------------------

  /** `RefParserState`: the states a reference scanner may be in. */
  datatype RefParserState =
    | NoState
    | ExpectSecondOpenBracket
    | ExpectRefText
    | ExpectRefTextOrCloseBracket
    | ExpectFinalCloseBracket
    | Resetting

  /** `RefType`: a `[[note]]` link or an `![[embed]]` embed. */
  datatype RefType = Link | Embed

  /**
   * `RefParser`: the state a reference scanner carries between markdown
   * events; `refText` accumulates reference text that arrives in pieces.
   */
  class RefParser {
    var state: RefParserState
    var refType: Option<RefType>
    var refText: string

    /** `RefParser::new`: idle, no reference kind, empty text. */
    constructor ()
      ensures state == NoState && refType == None && refText == []
    {
      state := NoState;
      refType := None;
      refText := [];
    }

    /** `transition`: moves to `newState` and touches nothing else. */
    method Transition(newState: RefParserState)
      modifies this`state
      ensures state == newState
      ensures refType == old(refType) && refText == old(refText)
    {
      state := newState;
    }

    /** `reset`: back to the state `new` produces. */
    method Reset()
      modifies this
      ensures state == NoState && refType == None && refText == []
    {
      state := NoState;
      refType := None;
      refText := [];
    }
  }
}
