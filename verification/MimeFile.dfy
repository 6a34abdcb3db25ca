/** Loading mime mappings: reading lines from a file and tokenising them into the map. */
module MimeFile {
  import opened Bytes
  import opened Mime

  // ------------------------------------------------------------------- tokens

  predicate Blank(c: byte) { c == SPACE || c == TAB }

  function SkipBlanks(s: bytes, i: nat): (j: nat)
    requires i <= |s|
    ensures i <= j <= |s| && (j < |s| ==> !Blank(s[j]))
    decreases |s| - i
  {
    if i < |s| && Blank(s[i]) then SkipBlanks(s, i + 1) else i
  }

  function TokenEnd(s: bytes, i: nat): (j: nat)
    requires i <= |s|
    ensures i <= j <= |s| && (j < |s| ==> Blank(s[j]))
    ensures i < |s| && !Blank(s[i]) ==> i < j
    decreases |s| - i
  {
    if i < |s| && !Blank(s[i]) then TokenEnd(s, i + 1) else i
  }

  /** The blank-separated words of s[i..]. */
  function Tokens(s: bytes, i: nat): seq<bytes>
    requires i <= |s|
    decreases |s| - i
  {
    var b := SkipBlanks(s, i);
    if b == |s| then [] else [s[b..TokenEnd(s, b)]] + Tokens(s, TokenEnd(s, b))
  }

  /** Each extension of a list with the same type. */
  function Pair(mimetype: bytes, extensions: seq<bytes>): seq<Mapping> {
    if extensions == [] then []
    else [Mapping(extensions[0], mimetype)] + Pair(mimetype, extensions[1..])
  }

  /** What a line of a mime.types file declares: a type, then its extensions. */
  function LineMappings(line: bytes): seq<Mapping> {
    var words := Tokens(line, 0);
    if words == [] || words[0][..1] == [HASH] then [] else Pair(words[0], words[1..])
  }

  // -------------------------------------------------------------------- lines

  /** What ends a line; the last one may just stop. */
  datatype Ending = Lf | Cr | CrLf | Eof {
    function Bytes(): bytes {
      match this case Lf => [LF] case Cr => [CR] case CrLf => [CR, LF] case Eof => []
    }
  }

  /** The ending at e, where a line's text stops. */
  function EndingAt(content: bytes, e: nat): (r: Ending)
    requires e <= |content|
    ensures e + |r.Bytes()| <= |content| && (r == Eof <==> e == |content|)
  {
    if e == |content| then Eof
    else if content[e] != CR then Lf
    else if e + 1 < |content| && content[e + 1] == LF then CrLf
    else Cr
  }

  /** The line at pos and where the next one begins; None at the end of the file. */
  function NextLine(content: bytes, pos: nat): (r: Option<(bytes, nat)>)
    requires pos <= |content|
    ensures r.Some? ==> pos < r.value.1 <= |content|
  {
    if pos == |content| then None
    else
      var e := pos + Span(content, pos, {LF, CR});
      Some((content[pos..e], e + |EndingAt(content, e).Bytes()|))
  }

  function Lines(content: bytes, pos: nat): seq<bytes>
    requires pos <= |content|
    decreases |content| - pos
  {
    match NextLine(content, pos)
    case None => []
    case Some((line, next)) => [line] + Lines(content, next)
  }

  /** The mappings of a list of lines; a line counts up to its first NUL. */
  function AllMappings(lines: seq<bytes>): seq<Mapping> {
    if lines == [] then []
    else LineMappings(Str(lines[0])) + AllMappings(lines[1..])
  }

  // --------------------------------------------------------- printing a file

  datatype Line = Line(text: bytes, ending: Ending)

  function Print(lines: seq<Line>): bytes {
    if lines == [] then [] else lines[0].text + lines[0].ending.Bytes() + Print(lines[1..])
  }

  function Texts(lines: seq<Line>): seq<bytes> {
    if lines == [] then [] else [lines[0].text] + Texts(lines[1..])
  }

  ghost predicate Plain(text: bytes) {
    CR !in text && LF !in text
  }

  /** A line that can stand before the others: what is printed next must not change its ending. */
  ghost predicate Before(line: Line, others: seq<Line>) {
    && Plain(line.text)
    && (line.ending == Cr && others != [] ==> others[0] != Line([], Lf))
    && (line.ending == Eof ==> others == [] && line.text != [])
  }

  ghost predicate Printable(lines: seq<Line>) {
    lines == [] || (Before(lines[0], lines[1..]) && Printable(lines[1..]))
  }

  /** A printed file begins with a line feed only if its first line is empty and ends in one. */
  lemma PrintStart(lines: seq<Line>)
    requires Printable(lines)
    ensures Print(lines) != [] && Print(lines)[0] == LF ==> lines != [] && lines[0] == Line([], Lf)
    ensures Print(lines) == [] <==> lines == []
  {
    if lines != [] {
      var text := lines[0].text;
      assert text != [] ==> text[0] in text && Print(lines)[0] == text[0];
      assert text == [] ==> text + lines[0].ending.Bytes() == lines[0].ending.Bytes();
    }
  }

  /** One printed line is read back, and reading stops right behind its ending. */
  lemma NextLinePrinted(content: bytes, p: nat, line: Line, rest: bytes)
    requires p <= |content| && content[p..] == line.text + line.ending.Bytes() + rest
    requires Plain(line.text) && (line.ending == Cr ==> rest == [] || rest[0] != LF)
    requires line.ending == Eof ==> rest == [] && line.text != []
    ensures var next := p + |line.text| + |line.ending.Bytes()|;
            && next <= |content| && content[next..] == rest
            && NextLine(content, p) == Some((line.text, next))
  {
    hide Span, EndingAt, Ending.Bytes, Plain;
    var n := |line.text|;
    Associate(line.text, line.ending.Bytes(), rest);
    PartsAt(content, p, line.text, line.ending.Bytes() + rest);
    EndingPrinted(content, p + n, line.ending, rest);
    TextEnds(content, p, line.text);
    assert p < |content| by {
      EndingLength(line.ending);
    }
  }

  lemma TextEnds(content: bytes, p: nat, text: bytes)
    requires p + |text| <= |content| && content[p..p + |text|] == text && Plain(text)
    requires p + |text| == |content| || content[p + |text|] in {LF, CR}
    ensures Span(content, p, {LF, CR}) == |text|
  {
    assert forall k :: 0 <= k < |text| ==> text[k] in text && content[p + k] == text[k];
    SpanIs(content, p, |text|, {LF, CR});
  }

  lemma EndingLength(ending: Ending)
    ensures ending.Bytes() == [] <==> ending == Eof
  {
  }

  lemma EndingPrinted(content: bytes, e: nat, ending: Ending, rest: bytes)
    requires e <= |content| && content[e..] == ending.Bytes() + rest
    requires (ending == Cr ==> rest == [] || rest[0] != LF) && (ending == Eof ==> rest == [])
    ensures EndingAt(content, e) == ending && content[e + |ending.Bytes()|..] == rest
    ensures e == |content| || content[e] in {LF, CR}
  {
    PartsAt(content, e, ending.Bytes(), rest);
  }

  /** However the lines of a file end, mixed in any way, they are read back as they are. */
  lemma {:induction false} LinesOfPrinted(content: bytes, p: nat, lines: seq<Line>)
    requires Printable(lines) && p <= |content| && content[p..] == Print(lines)
    ensures Lines(content, p) == Texts(lines)
    decreases |lines|
  {
    hide NextLine, Print, Texts, Printable, Ending.Bytes;
    if lines == [] {
      PrintedNothing();
      EndOfFile(content);
    } else {
      var rest := lines[1..];
      assert lines == [lines[0]] + rest;
      PrintedCons(lines[0], rest);
      PrintStart(rest);
      NextLinePrinted(content, p, lines[0], Print(rest));
      LinesOfPrinted(content, p + |lines[0].text| + |lines[0].ending.Bytes()|, rest);
    }
  }

  lemma PrintedNothing()
    ensures Print([]) == [] && Texts([]) == [] && Printable([])
  {
  }

  /** One more line in front. */
  lemma PrintedCons(line: Line, rest: seq<Line>)
    ensures var lines := [line] + rest;
            && Print(lines) == line.text + line.ending.Bytes() + Print(rest)
            && Texts(lines) == [line.text] + Texts(rest)
            && (Printable(lines) <==> Before(line, rest) && Printable(rest))
  {
    assert ([line] + rest)[1..] == rest;
  }

  lemma EndOfFile(content: bytes)
    ensures NextLine(content, |content|) == None
  {
  }

  /** The lines of a file with their endings. */
  function Reading(content: bytes, p: nat): seq<Line>
    requires p <= |content|
    decreases |content| - p
  {
    match NextLine(content, p)
    case None => []
    case Some((text, next)) =>
      var e := p + Span(content, p, {LF, CR});
      [Line(text, EndingAt(content, e))] + Reading(content, next)
  }

  /** What NextLine says about the bytes it covers. */
  lemma NextLineCovers(content: bytes, p: nat)
    requires p < |content|
    ensures var e := p + Span(content, p, {LF, CR}); var ending := EndingAt(content, e); var next := e + |ending.Bytes()|;
            && NextLine(content, p) == Some((content[p..e], next))
            && Plain(content[p..e]) && content[p..] == content[p..e] + ending.Bytes() + content[next..]
            && (ending == Cr ==> next == |content| || content[next] != LF)
            && (ending == Eof ==> next == |content| && content[p..e] != [])
  {
    hide Span, EndingAt, Plain;
    var e := p + Span(content, p, {LF, CR});
    TextCovers(content, p);
    EndingCovers(content, e);
    CutThree(content, p, e, e + |EndingAt(content, e).Bytes()|);
  }

  lemma CutThree(content: bytes, p: nat, e: nat, next: nat)
    requires p <= e <= next <= |content|
    ensures content[p..] == content[p..e] + content[e..next] + content[next..]
  {
  }

  lemma TextCovers(content: bytes, p: nat)
    requires p < |content|
    ensures var e := p + Span(content, p, {LF, CR});
            && Plain(content[p..e]) && (e < |content| ==> content[e] in {LF, CR})
            && (e == |content| ==> content[p..e] != [])
  {
  }

  lemma EndingCovers(content: bytes, e: nat)
    requires e < |content| ==> content[e] in {LF, CR}
    requires e <= |content|
    ensures var ending := EndingAt(content, e); var next := e + |ending.Bytes()|;
            content[e..next] == ending.Bytes() && (ending == Cr ==> next == |content| || content[next] != LF)
  {
  }

  /** Every file is such a print, so all that reading loses is the endings. */
  lemma {:induction false} EveryFileIsPrinted(content: bytes, p: nat)
    requires p <= |content|
    ensures Printable(Reading(content, p)) && Print(Reading(content, p)) == content[p..]
    ensures Texts(Reading(content, p)) == Lines(content, p)
    decreases |content| - p
  {
    hide NextLine, Ending.Bytes, EndingAt, Span, Print, Texts, Printable, Before, Reading, Lines;
    if p == |content| {
      PrintedNothing();
      NothingRead(content);
    } else {
      var line, next := OneRead(content, p);
      var rest := Reading(content, next);
      EveryFileIsPrinted(content, next);
      PrintStart(rest);
      StandsBefore(content, line, next, rest);
      PrintedCons(line, rest);
    }
  }

  lemma NothingRead(content: bytes)
    ensures Reading(content, |content|) == [] && Lines(content, |content|) == []
  {
    EndOfFile(content);
  }

  /** The line at p, what it is read as, and where the next one begins. */
  lemma OneRead(content: bytes, p: nat) returns (line: Line, next: nat)
    requires p < |content|
    ensures p < next <= |content| && content[p..] == line.text + line.ending.Bytes() + content[next..]
    ensures Reading(content, p) == [line] + Reading(content, next)
    ensures Lines(content, p) == [line.text] + Lines(content, next)
    ensures Plain(line.text) && (line.ending == Cr ==> next == |content| || content[next] != LF)
    ensures line.ending == Eof ==> next == |content| && line.text != []
  {
    hide Span, EndingAt, NextLine, Plain, Ending.Bytes;
    NextLineCovers(content, p);
    var e := p + Span(content, p, {LF, CR});
    line := Line(content[p..e], EndingAt(content, e));
    next := e + |line.ending.Bytes()|;
  }

  lemma StandsBefore(content: bytes, line: Line, next: nat, rest: seq<Line>)
    requires next <= |content| && Print(rest) == content[next..]
    requires Plain(line.text) && (line.ending == Cr ==> next == |content| || content[next] != LF)
    requires line.ending == Eof ==> next == |content| && line.text != []
    requires Print(rest) == [] <==> rest == []
    ensures Before(line, rest)
  {
    hide Print;
    NotSwallowed(rest);
  }

  lemma NotSwallowed(rest: seq<Line>)
    ensures rest != [] && rest[0] == Line([], Lf) ==> Print(rest) != [] && Print(rest)[0] == LF
  {
  }

  // ------------------------------------------------------------ the file

  const EOF: int := -1

  /** A FILE opened for reading. */
  class File {
    const content: bytes
    var pos: nat

    constructor (content: bytes)
      ensures this.content == content && pos == 0
    {
      this.content, pos := content, 0;
    }

    method Fgetc() returns (c: int)
      requires pos <= |content|
      modifies this
      ensures pos <= |content|
      ensures if old(pos) < |content| then c == content[old(pos)] && pos == old(pos) + 1
              else c == EOF && pos == old(pos)
    {
      if pos == |content| {
        c := EOF;
      } else {
        c := content[pos];
        pos := pos + 1;
      }
    }

    method Fread(n: nat) returns (buf: bytes)
      requires pos <= |content|
      modifies this
      ensures old(pos) <= pos <= |content|
      ensures buf == content[old(pos)..pos]
      ensures pos == if old(pos) + n <= |content| then old(pos) + n else |content|
    {
      var end := if pos + n <= |content| then pos + n else |content|;
      buf := content[pos..end];
      pos := end;
    }

    method Fseek(offset: nat)
      requires offset <= |content|
      modifies this
      ensures pos == offset
    {
      pos := offset;
    }
  }

  /** Reads up to the end of the line or the file, and what ended it. */
  method ScanLine(fp: File) returns (linelen: nat, c: int)
    requires fp.pos <= |fp.content|
    modifies fp
    ensures linelen == Span(fp.content, old(fp.pos), {LF, CR})
    ensures var e := old(fp.pos) + linelen;
            if e < |fp.content| then c == fp.content[e] && fp.pos == e + 1 else c == EOF && fp.pos == e == |fp.content|
  {
    ghost var startpos := fp.pos;
    linelen := 0;
    c := fp.Fgetc();
    while !(c == EOF || c == LF || c == CR)
      invariant startpos + linelen <= |fp.content|
      invariant fp.pos == startpos + linelen + (if c == EOF then 0 else 1) <= |fp.content|
      invariant c == if startpos + linelen < |fp.content| then fp.content[startpos + linelen] else EOF
      invariant Span(fp.content, startpos, {LF, CR}) == linelen + Span(fp.content, startpos + linelen, {LF, CR})
      decreases |fp.content| - startpos - linelen
    {
      linelen := linelen + 1;
      c := fp.Fgetc();
    }
  }

  /** read_line: scan for the end of the line, rewind, and read it again. */
  method ReadLine(fp: File) returns (line: Option<bytes>)
    requires fp.pos <= |fp.content|
    modifies fp
    ensures fp.pos <= |fp.content|
    ensures match NextLine(fp.content, old(fp.pos))
            case None => line == None && fp.pos == |fp.content|
            case Some((text, next)) => line == Some(text) && fp.pos == next
  {
    hide Span;
    var startpos := fp.pos;
    var linelen, c := ScanLine(fp);
    if linelen == 0 && c == EOF {
      return None;
    }
    var endpos := fp.pos;
    if c == CR {
      var d := fp.Fgetc();
      if d == LF {
        endpos := endpos + 1;
      }
    }
    fp.Fseek(startpos);
    var buf := fp.Fread(linelen);
    assert |buf| == linelen;
    fp.Fseek(endpos);
    line := Some(buf);
  }

  // ------------------------------------------------------------ loading the map

  method SkipBlankChars(line: bytes, from: nat) returns (i: nat)
    requires from <= |line|
    ensures i == SkipBlanks(line, from)
  {
    i := from;
    while Blank(CharAt(line, i))
      invariant from <= i <= |line| && SkipBlanks(line, from) == SkipBlanks(line, i)
      decreases |line| - i
    {
      i := i + 1;
    }
  }

  method SkipToken(line: bytes, from: nat) returns (i: nat)
    requires from <= |line| && NUL !in line
    ensures i == TokenEnd(line, from)
  {
    i := from;
    while !Blank(CharAt(line, i)) && CharAt(line, i) != NUL
      invariant from <= i <= |line| && TokenEnd(line, from) == TokenEnd(line, i)
      decreases |line| - i
    {
      CharAtEnd(line, i);
      i := i + 1;
    }
    CharAtEnd(line, i);
  }

  lemma NoMappings(history: seq<Mapping>)
    ensures history + [] == history
  {
  }

  /** The next extension of a line, and what is left behind it. */
  lemma OneToken(line: bytes, from: nat, mimetype: bytes, history: seq<Mapping>)
    requires from <= |line|
    ensures var b := SkipBlanks(line, from);
            if b == |line| then history + Pair(mimetype, Tokens(line, from)) == history
            else
              var e := TokenEnd(line, b);
              && b < e
              && history + Pair(mimetype, Tokens(line, from)) ==
                 history + [Mapping(line[b..e], mimetype)] + Pair(mimetype, Tokens(line, e))
              && (if e == |line| then Pair(mimetype, Tokens(line, e)) == []
                  else Pair(mimetype, Tokens(line, e)) == Pair(mimetype, Tokens(line, e + 1)))
  {
    var b := SkipBlanks(line, from);
    if b < |line| {
      var e := TokenEnd(line, b);
      var word, rest := line[b..e], Tokens(line, e);
      assert ([word] + rest)[1..] == rest;
      assert Pair(mimetype, [word] + rest) == [Mapping(word, mimetype)] + Pair(mimetype, rest);
      assert e < |line| ==> SkipBlanks(line, e) == SkipBlanks(line, e + 1);
    }
  }

  /** The type of a line, in front of its extensions. */
  lemma FirstToken(line: bytes)
    ensures var b := SkipBlanks(line, 0);
            if b == |line| || line[b] == HASH then LineMappings(line) == []
            else
              var e := TokenEnd(line, b);
              b < e && LineMappings(line) == Pair(line[b..e], Tokens(line, e))
  {
    var b := SkipBlanks(line, 0);
    if b < |line| {
      var e := TokenEnd(line, b);
      assert line[b..e][..1] == [line[b]];
      assert ([line[b..e]] + Tokens(line, e))[1..] == Tokens(line, e);
    }
  }

  /** parse_mimetype_line on a C string. */
  method ParseMimetypeLine(mime: MimeMap, line: bytes)
    requires mime.Valid() && NUL !in line
    modifies mime
    ensures mime.Valid()
    ensures mime.history == old(mime.history) + LineMappings(line)
  {
    hide Tokens, Pair, LineMappings, MimeMap.Valid;
    FirstToken(line);
    var pad := SkipBlankChars(line, 0);
    CharAtEnd(line, pad);
    if CharAt(line, pad) == NUL || CharAt(line, pad) == HASH {
      return;
    }
    var bound1 := SkipToken(line, pad + 1);
    assert bound1 == TokenEnd(line, pad);
    CharAtEnd(line, bound1);
    if CharAt(line, bound1) == NUL {
      OneToken(line, bound1, line[pad..bound1], mime.history);
      return;
    }
    var lbound := bound1;
    while true
      invariant bound1 <= lbound <= |line|
      invariant mime.Valid()
      invariant mime.history + Pair(line[pad..bound1], Tokens(line, lbound)) ==
                old(mime.history) + LineMappings(line)
      decreases |line| - lbound
    {
      OneToken(line, lbound, line[pad..bound1], mime.history);
      lbound := SkipBlankChars(line, lbound);
      CharAtEnd(line, lbound);
      if CharAt(line, lbound) == NUL {
        return;
      }
      var rbound := SkipToken(line, lbound);
      mime.AddMapping(line[lbound..rbound], line[pad..bound1]);
      CharAtEnd(line, rbound);
      if CharAt(line, rbound) == NUL {
        NoMappings(mime.history);
        return;
      }
      lbound := rbound + 1;
    }
  }

  /** The mappings of the lines from pos on. */
  ghost function Remaining(content: bytes, pos: nat): seq<Mapping>
    requires pos <= |content|
  {
    AllMappings(Lines(content, pos))
  }

  lemma RemainingStep(content: bytes, pos: nat, history: seq<Mapping>)
    requires pos <= |content|
    ensures match NextLine(content, pos)
            case None => history + Remaining(content, pos) == history
            case Some((text, next)) =>
              history + Remaining(content, pos) ==
                history + LineMappings(Str(text)) + Remaining(content, next)
  {
  }

  /** parse_extension_map_file: the file becomes the last-wins fold of its lines. */
  method ParseExtensionMapFile(mime: MimeMap, content: bytes)
    requires mime.Valid()
    modifies mime
    ensures mime.Valid()
    ensures mime.history == old(mime.history) + AllMappings(Lines(content, 0))
  {
    var fp := new File(content);
    ghost var goal := mime.history + Remaining(content, 0);
    while true
      invariant mime.Valid() && fp.content == content && fp.pos <= |content|
      invariant mime.history + Remaining(content, fp.pos) == goal
      decreases |content| - fp.pos
    {
      RemainingStep(content, fp.pos, mime.history);
      var line := ReadLine(fp);
      if line.None? {
        break;
      }
      ParseMimetypeLine(mime, Str(line.value));
    }
  }

  lemma MoreMappings(history: seq<Mapping>, more: seq<Mapping>, rest: seq<Mapping>)
    ensures history + (more + rest) == history + more + rest
  {
  }

  /** parse_default_extension_map, on the lines that are built in. */
  method ParseDefaultExtensionMap(mime: MimeMap, builtIn: seq<bytes>)
    requires mime.Valid() && forall line :: line in builtIn ==> NUL !in line
    modifies mime
    ensures mime.Valid()
    ensures mime.history == old(mime.history) + AllMappings(builtIn)
  {
    hide LineMappings, MimeMap.Valid, Str;
    ghost var goal := mime.history + AllMappings(builtIn);
    var i := 0;
    while i < |builtIn|
      invariant 0 <= i <= |builtIn| && mime.Valid()
      invariant mime.history + AllMappings(builtIn[i..]) == goal
    {
      StrWhole(builtIn[i]);
      MoreMappings(mime.history, LineMappings(builtIn[i]), AllMappings(builtIn[i + 1..]));
      ParseMimetypeLine(mime, builtIn[i]);
      i := i + 1;
    }
    NoMappings(mime.history);
  }

  /** The mappings of several files, one after the other. */
  function FileMappings(files: seq<bytes>): seq<Mapping> {
    if files == [] then [] else AllMappings(Lines(files[0], 0)) + FileMappings(files[1..])
  }

  method ParseExtensionMapFiles(mime: MimeMap, files: seq<bytes>)
    requires mime.Valid()
    modifies mime
    ensures mime.Valid()
    ensures mime.history == old(mime.history) + FileMappings(files)
  {
    hide AllMappings, Lines, MimeMap.Valid;
    ghost var goal := mime.history + FileMappings(files);
    var i := 0;
    while i < |files|
      invariant 0 <= i <= |files| && mime.Valid()
      invariant mime.history + FileMappings(files[i..]) == goal
    {
      MoreMappings(mime.history, AllMappings(Lines(files[i], 0)), FileMappings(files[i + 1..]));
      ParseExtensionMapFile(mime, files[i]);
      i := i + 1;
    }
    NoMappings(mime.history);
  }

  /**
   What main does to the map, and a lookup: after the built-in lines, then any mapping
   files, and sorting, any URL gets the type its extension was last declared with, or
   the default.
   */
  method LoadAndLookup(builtIn: seq<bytes>, files: seq<bytes>, fallback: bytes, url: bytes) returns (mimetype: bytes)
    requires forall line :: line in builtIn ==> NUL !in line
    ensures mimetype == TypeOf(AllMappings(builtIn) + FileMappings(files), fallback, url)
  {
    hide AllMappings, FileMappings, TypeOf, MimeMap.Valid, Sorted;
    var mime := new MimeMap(fallback);
    ParseDefaultExtensionMap(mime, builtIn);
    assert mime.history == AllMappings(builtIn);
    ParseExtensionMapFiles(mime, files);
    mime.Sort();
    mimetype := mime.ContentType(url);
  }

  // ------------------------------------------------------------ written lines

  /** Spaces and tabs. */
  ghost predicate Blanks(s: bytes) {
    forall c :: c in s ==> c == 32 || c == 9
  }

  /** Something without either. */
  ghost predicate Word(s: bytes) {
    s != [] && forall c :: c in s ==> c != 32 && c != 9
  }

  /** Words, each with the blanks behind it. */
  function Spaced(words: seq<bytes>, gaps: seq<bytes>): bytes
    requires |words| == |gaps|
  {
    if words == [] then [] else words[0] + gaps[0] + Spaced(words[1..], gaps[1..])
  }

  /** No word runs into the next. */
  ghost predicate Apart(words: seq<bytes>, gaps: seq<bytes>) {
    && |words| == |gaps|
    && (forall i :: 0 <= i < |words| ==> Word(words[i]) && Blanks(gaps[i]))
    && (forall i :: 0 <= i < |words| - 1 ==> gaps[i] != [])
  }

  lemma {:induction false} SkipIs(s: bytes, i: nat, j: nat)
    requires i <= j <= |s| && (forall k :: i <= k < j ==> Blank(s[k])) && (j < |s| ==> !Blank(s[j]))
    ensures SkipBlanks(s, i) == j
    decreases j - i
  {
    if i < j {
      SkipIs(s, i + 1, j);
    }
  }

  lemma {:induction false} EndIs(s: bytes, i: nat, j: nat)
    requires i <= j <= |s| && (forall k :: i <= k < j ==> !Blank(s[k])) && (j < |s| ==> Blank(s[j]))
    ensures TokenEnd(s, i) == j
    decreases j - i
  {
    if i < j {
      EndIs(s, i + 1, j);
    }
  }

  /** Written words are read back, whatever blanks are in front of, between and behind them. */
  lemma {:induction false} TokensOfSpaced(s: bytes, i: nat, lead: bytes, words: seq<bytes>, gaps: seq<bytes>)
    requires Apart(words, gaps) && Blanks(lead) && i <= |s| && s[i..] == lead + Spaced(words, gaps)
    ensures Tokens(s, i) == words
    decreases |words|
  {
    hide Tokens, Blanks, Word, SkipBlanks, TokenEnd;
    TokensStep(s, i);
    if words == [] {
      assert lead + [] == lead;
      OnlyBlanks(s, i, lead);
    } else {
      var word, t := words[0], gaps[0] + Spaced(words[1..], gaps[1..]);
      Associate(word, gaps[0], Spaced(words[1..], gaps[1..]));
      BlankBehind(words, gaps);
      OneWord(s, i, lead, word, t);
      ApartRest(words, gaps);
      TokensOfSpaced(s, i + |lead| + |word|, gaps[0], words[1..], gaps[1..]);
      assert words == [word] + words[1..];
    }
  }

  lemma OnlyBlanks(s: bytes, i: nat, lead: bytes)
    requires Blanks(lead) && i <= |s| && s[i..] == lead
    ensures SkipBlanks(s, i) == |s|
  {
    assert forall k :: i <= k < |s| ==> s[k] == lead[k - i] && lead[k - i] in lead;
    SkipIs(s, i, |s|);
  }

  lemma OneWord(s: bytes, i: nat, lead: bytes, word: bytes, t: bytes)
    requires Blanks(lead) && Word(word) && (t != [] ==> Blank(t[0])) && i <= |s| && s[i..] == lead + (word + t)
    ensures var b := i + |lead|; var e := b + |word|;
            && e <= |s| && b < |s| && SkipBlanks(s, i) == b && TokenEnd(s, b) == e && s[b..e] == word && s[e..] == t
  {
    hide SkipBlanks, TokenEnd, Blank;
    PartsAt(s, i, lead, word + t);
    PartsAt(s, i + |lead|, word, t);
    WordBegins(s, i, lead, word);
    WordEnds(s, i + |lead|, word, t);
  }

  lemma WordBegins(s: bytes, i: nat, lead: bytes, word: bytes)
    requires Blanks(lead) && Word(word) && i + |lead| < |s| && s[i..i + |lead|] == lead && s[i + |lead|] == word[0]
    ensures SkipBlanks(s, i) == i + |lead|
  {
    hide SkipBlanks;
    assert forall k :: 0 <= k < |lead| ==> lead[k] in lead;
    assert forall k :: i <= k < i + |lead| ==> s[k] == s[i..i + |lead|][k - i];
    assert word[0] in word;
    SkipIs(s, i, i + |lead|);
  }

  lemma WordEnds(s: bytes, b: nat, word: bytes, t: bytes)
    requires Word(word) && b + |word| <= |s| && s[b..b + |word|] == word && s[b + |word|..] == t && (t != [] ==> Blank(t[0]))
    ensures TokenEnd(s, b) == b + |word|
  {
    hide TokenEnd;
    assert forall k :: 0 <= k < |word| ==> word[k] in word;
    assert forall k :: b <= k < b + |word| ==> s[k] == s[b..b + |word|][k - b];
    assert b + |word| < |s| ==> s[b + |word|] == t[0];
    EndIs(s, b, b + |word|);
  }

  lemma TokensStep(s: bytes, i: nat)
    requires i <= |s|
    ensures var b := SkipBlanks(s, i);
            Tokens(s, i) == if b == |s| then [] else [s[b..TokenEnd(s, b)]] + Tokens(s, TokenEnd(s, b))
  {
  }

  lemma BlankBehind(words: seq<bytes>, gaps: seq<bytes>)
    requires Apart(words, gaps) && words != []
    ensures Word(words[0]) && Blanks(gaps[0])
    ensures var t := gaps[0] + Spaced(words[1..], gaps[1..]); t != [] ==> Blank(t[0])
  {
    if gaps[0] != [] {
      assert gaps[0][0] in gaps[0] && Blanks(gaps[0]);
    } else {
      assert |words| == 1;
    }
  }

  lemma ApartRest(words: seq<bytes>, gaps: seq<bytes>)
    requires Apart(words, gaps) && words != []
    ensures Apart(words[1..], gaps[1..])
  {
    assert forall i :: 0 <= i < |words| - 1 ==> words[1..][i] == words[i + 1] && gaps[1..][i] == gaps[i + 1];
  }

  /**
   A line of words maps each extension to the type in front of it, in order; a line of
   blanks, or one whose first word begins with a number sign, maps nothing.
   */
  lemma LineMeans(lead: bytes, words: seq<bytes>, gaps: seq<bytes>)
    requires Apart(words, gaps) && Blanks(lead)
    ensures var r := LineMappings(lead + Spaced(words, gaps));
            if words == [] || words[0][0] == '#' as int then r == []
            else |r| == |words| - 1 && forall k :: 0 <= k < |r| ==> r[k] == Mapping(words[k + 1], words[0])
  {
    var s := lead + Spaced(words, gaps);
    assert s[0..] == s;
    TokensOfSpaced(s, 0, lead, words, gaps);
    if words != [] {
      assert Word(words[0]);
      assert words[0][..1] == [words[0][0]];
      PairMeans(words[0], words[1..]);
    }
  }

  lemma {:induction false} PairMeans(mimetype: bytes, extensions: seq<bytes>)
    ensures var r := Pair(mimetype, extensions);
            |r| == |extensions| && forall k :: 0 <= k < |r| ==> r[k] == Mapping(extensions[k], mimetype)
  {
    if extensions != [] {
      PairMeans(mimetype, extensions[1..]);
    }
  }
}
