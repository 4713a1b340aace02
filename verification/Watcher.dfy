/** Following a log file: the lines that drainLines feeds to the parser, and where it leaves the
    cursor, however the bytes arrive. */
module Watchers {
  import opened Events
  import opened TargetText

  // ---- lines ----

  /** The complete lines of a text, each with its newline. */
  function Lines(s: string): seq<string>
    decreases |s|
  {
    match IndexOf(s, '\n')
    case None => []
    case Some(i) => [s[..i + 1]] + Lines(s[i + 1..])
  }

  /** The place just past the last newline. */
  function LineEnd(s: string): (n: nat)
    ensures n <= |s| && '\n' !in s[n..]
    ensures n > 0 ==> s[n - 1] == '\n'
    decreases |s|
  {
    match IndexOf(s, '\n')
    case None => 0
    case Some(i) =>
      var rest := s[i + 1..];
      var n := LineEnd(rest);
      assert rest[n..] == s[i + 1 + n..];
      i + 1 + n
  }

  /** strings.TrimRight(line, "\r\n") */
  function TrimRight(line: string): (r: string)
    ensures r <= line && (r != "" ==> r[|r| - 1] !in {'\r', '\n'})
    ensures forall k :: |r| <= k < |line| ==> line[k] in {'\r', '\n'}
  {
    if line != "" && line[|line| - 1] in {'\r', '\n'} then TrimRight(line[..|line| - 1]) else line
  }

  /** The texts of the lines that are not blank. */
  function Texts(lines: seq<string>): seq<string> {
    if lines == [] then []
    else
      var t := TrimRight(lines[|lines| - 1]);
      Texts(lines[..|lines| - 1]) + (if t == "" then [] else [t])
  }

  // ---- the file, the channel and the watcher ----

  class LogFile {
    var content: string
    var cursor: nat

    ghost predicate Valid() reads this { cursor <= |content| }

    constructor (content: string, cursor: nat)
      requires cursor <= |content|
      ensures Valid() && this.content == content && this.cursor == cursor
    {
      this.content, this.cursor := content, cursor;
    }

    method Append(bytes: string)
      requires Valid()
      modifies this`content
      ensures Valid() && content == old(content) + bytes
    {
      content := content + bytes;
    }

    /** One read of the operating system: at most size bytes, none only at the end. */
    method Read(size: nat) returns (chunk: string)
      requires Valid() && size > 0
      modifies this`cursor
      ensures Valid() && cursor == old(cursor) + |chunk| && chunk == content[old(cursor)..cursor]
      ensures chunk == "" <==> old(cursor) == |content|
    {
      var end := if cursor + size <= |content| then cursor + size else |content|;
      chunk := content[cursor..end];
      cursor := end;
    }

    method Seek(pos: nat)
      requires pos <= |content|
      modifies this`cursor
      ensures cursor == pos
    {
      cursor := pos;
    }
  }

  datatype Reading = Reading(server: string, event: Event)

  /** The injected parser may keep state: it sees every line fed so far, the new one last. */
  type Parse = seq<string> -> Option<Reading>

  function Named(server: string, r: Reading): Reading { if server == "" then r else r.(server := server) }

  /** What the watcher offers to the channel for the lines it fed to the parser. */
  function Offered(parse: Parse, server: string, fed: seq<string>): seq<Reading> {
    if fed == [] then []
    else
      Offered(parse, server, fed[..|fed| - 1]) +
      match parse(fed)
      case None => []
      case Some(r) => [Named(server, r)]
  }

  /** A full channel drops what it is offered; room tells when it is not full. */
  function Delivered(room: nat -> bool, offered: seq<Reading>): seq<Reading> {
    if offered == [] then []
    else Delivered(room, offered[..|offered| - 1]) + (if room(|offered| - 1) then [offered[|offered| - 1]] else [])
  }

  datatype Status = Line | Eof | Failed

  class Watcher {
    const parse: Parse
    const server: string
    const room: nat -> bool
    /** Lines given to the parser, sends tried, and readings the channel took. */
    var fed: seq<string>
    var tries: nat
    var channel: seq<Reading>

    ghost predicate Valid() reads this {
      tries == |Offered(parse, server, fed)| && channel == Delivered(room, Offered(parse, server, fed))
    }

    constructor (parse: Parse, server: string, room: nat -> bool)
      ensures Valid() && this.parse == parse && this.server == server && this.room == room && fed == [] && channel == []
    {
      this.parse, this.server, this.room := parse, server, room;
      fed, tries, channel := [], 0, [];
    }

    /** One line: trimmed, skipped when blank, parsed, named, and offered without waiting. */
    method Feed(raw: string)
      requires Valid()
      modifies this
      ensures Valid() && fed == old(fed) + Texts([raw])
    {
      hide Offered, Delivered, TrimRight;
      var line := TrimRight(raw);
      TextsOne(raw);
      if line == "" { return; }
      OfferedNext(parse, server, fed, line);
      var outcome := parse(fed + [line]);
      var open := room(tries);
      if outcome.Some? { DeliveredNext(room, Offered(parse, server, fed), Named(server, outcome.value)); }
      assert outcome.None? ==> Offered(parse, server, fed + [line]) == Offered(parse, server, fed);
      fed := fed + [line];
      match outcome {
        case None =>
        case Some(r) =>
          var named := Named(server, r);
          if open { channel := channel + [named]; }
          tries := tries + 1;
      }
    }

    /** drainLines. sizes(k) is the number of bytes the k-th read asks for, 0 when it fails. */
    method DrainLines(f: LogFile, sizes: nat -> nat) returns (failed: bool)
      requires Valid() && f.Valid()
      modifies this, f`cursor
      ensures Valid() && f.Valid()
      ensures !failed ==>
                && fed == old(fed) + Texts(Lines(f.content[old(f.cursor)..]))
                && f.cursor == old(f.cursor) + LineEnd(f.content[old(f.cursor)..])
      ensures failed ==> old(f.cursor) <= f.cursor && fed == old(fed) + Texts(Lines(f.content[old(f.cursor)..f.cursor]))
    {
      hide Lines, Texts, LineEnd, Offered, Delivered, AtLineEnd, IsLine, TrimRight;
      var start := f.cursor;
      var lineEnd := start;
      var buffer, k := "", 0;
      assert f.content[start..start] == "";
      NoLines();
      while true
        invariant Valid() && f.Valid() && f.content == old(f.content)
        invariant start <= lineEnd <= f.cursor && buffer == f.content[lineEnd..f.cursor]
        invariant AtLineEnd(f.content[start..lineEnd])
        invariant fed == old(fed) + Texts(Lines(f.content[start..lineEnd]))
        decreases |f.content| - lineEnd
      {
        var line, status;
        line, buffer, k, status := ReadString(f, buffer, k, sizes);
        match status {
          case Eof =>
            assert f.content[start..] == f.content[start..lineEnd] + buffer;
            TailHasNoLine(f.content[start..lineEnd], buffer);
            f.Seek(lineEnd);
            return false;
          case Failed =>
            assert f.content[start..f.cursor] == f.content[start..lineEnd] + buffer;
            TailHasNoLine(f.content[start..lineEnd], buffer);
            return true;
          case Line =>
            ghost var before := f.content[start..lineEnd];
            LineNotEmpty(line);
            SliceTwice(f.content, start, lineEnd, f.cursor, line, buffer);
            lineEnd := lineEnd + |line|;
            OneMoreLine(before, line);
            Feed(line);
        }
      }
    }

    /** ReadString of the buffered reader: the next line, reading on while it is not complete. */
    method ReadString(f: LogFile, buffer0: string, k0: nat, sizes: nat -> nat)
      returns (line: string, buffer: string, k: nat, status: Status)
      requires f.Valid() && |buffer0| <= f.cursor && buffer0 == f.content[f.cursor - |buffer0|..f.cursor]
      modifies f`cursor
      ensures f.Valid() && f.cursor >= old(f.cursor)
      ensures status == Line ==>
                && IsLine(line)
                && line + buffer == f.content[old(f.cursor) - |buffer0|..f.cursor]
      ensures status != Line ==> '\n' !in buffer && buffer == f.content[old(f.cursor) - |buffer0|..f.cursor]
      ensures status == Eof ==> f.cursor == |f.content|
    {
      line, buffer, k := "", buffer0, k0;
      ghost var from := f.cursor - |buffer0|;
      while '\n' !in buffer
        invariant f.Valid() && f.cursor >= old(f.cursor) && f.content == old(f.content)
        invariant buffer == f.content[from..f.cursor]
        decreases |f.content| - f.cursor
      {
        var size := sizes(k);
        k := k + 1;
        if size == 0 { return line, buffer, k, Failed; }
        ghost var at := f.cursor;
        var chunk := f.Read(size);
        Glue(f.content, from, at, f.cursor);
        if chunk == "" { return line, buffer, k, Eof; }
        buffer := buffer + chunk;
      }
      var i := IndexOf(buffer, '\n').value;
      status := Line;
      line, buffer := buffer[..i + 1], buffer[i + 1..];
      assert line[..i] == (line + buffer)[..i];
    }
  }

  lemma OfferedNext(parse: Parse, server: string, fed: seq<string>, line: string)
    ensures Offered(parse, server, fed + [line]) == Offered(parse, server, fed) +
            match parse(fed + [line]) { case None => [] case Some(r) => [Named(server, r)] }
    ensures (fed + [line])[..|fed|]
         == fed
  {
    assert (fed + [line])[..|fed|] == fed;
  }

  lemma DeliveredNext(room: nat -> bool, offered: seq<Reading>, r: Reading)
    ensures Delivered(room, offered + [r])
         == Delivered(room, offered) + if room(|offered|) then [r] else []
  {
    assert (offered + [r])[..|offered|] == offered;
  }

  // ---- lines and concatenation ----

  /** Empty, or ending with a newline. */
  predicate AtLineEnd(s: string) { s == "" || s[|s| - 1] == '\n' }

  predicate IsLine(s: string) { s != "" && s[|s| - 1] == '\n' && '\n' !in s[..|s| - 1] }

  lemma LinesNone(s: string)
    requires '\n' !in s
    ensures Lines(s) == [] && LineEnd(s) == 0
  {
  }

  lemma LinesCons(line: string, rest: string)
    requires IsLine(line)
    ensures Lines(line + rest) == [line] + Lines(rest) && LineEnd(line + rest) == |line| + LineEnd(rest)
  {
    var s, i := line + rest, |line| - 1;
    assert s[..i] == line[..i] && s[..i + 1] == line && s[i + 1..] == rest;
    IndexOfFirst(s, '\n', i);
    hide IndexOf, IsLine;
  }

  lemma FirstLine(s: string) returns (line: string, rest: string)
    requires '\n' in s
    ensures IsLine(line) && s == line + rest
  {
    var i := IndexOf(s, '\n').value;
    line, rest := s[..i + 1], s[i + 1..];
    assert line[..i] == s[..i];
  }

  lemma {:induction false} LinesConcat(a: string, b: string)
    requires AtLineEnd(a)
    ensures Lines(a + b) == Lines(a) + Lines(b)
    ensures LineEnd(a + b) == |a| + LineEnd(b)
    decreases |a|
  {
    hide Lines, LineEnd, IsLine;
    if a == "" {
      LinesNone(a);
      assert a + b == b;
    } else {
      var line, rest := FirstLine(a);
      assert AtLineEnd(rest) by { assert rest != "" ==> rest[|rest| - 1] == a[|a| - 1]; }
      assert |line| > 0 by { assert IsLine(line); LineNotEmpty(line); }
      LinesConcat(rest, b);
      LinesConcat(rest, "");
      LinesNone("");
      assert rest + "" == rest && a + b == line + (rest + b);
      LinesCons(line, rest);
      LinesCons(line, rest + b);
    }
  }

  lemma LineNotEmpty(line: string)
    requires IsLine(line)
    ensures line != ""
  {
  }

  lemma {:induction false} TextsConcat(a: seq<string>, b: seq<string>)
    ensures Texts(a + b) == Texts(a) + Texts(b)
  {
    if b == [] {
      assert a + b == a;
    } else {
      assert (a + b)[..|a + b| - 1] == a + b[..|b| - 1];
      TextsConcat(a, b[..|b| - 1]);
    }
  }

  lemma TextsOne(raw: string)
    ensures Texts([raw]) == if TrimRight(raw) == "" then [] else [TrimRight(raw)]
  {
    assert [raw][..0] == [];
  }

  lemma Glue(s: string, i: nat, j: nat, k: nat)
    requires i <= j <= k <= |s|
    ensures s[i..k] == s[i..j] + s[j..k]
  {
  }

  lemma SliceTwice(s: string, i: nat, j: nat, k: nat, line: string, buffer: string)
    requires i <= j <= k <= |s| && line + buffer == s[j..k]
    ensures j + |line| <= k && s[i..j + |line|] == s[i..j] + line && s[j + |line|..k] == buffer
  {
    assert |line + buffer| == k - j;
    assert line == (line + buffer)[..|line|] && buffer == (line + buffer)[|line|..];
    assert s[j..k][..|line|] == s[j..j + |line|] && s[j..k][|line|..] == s[j + |line|..k];
    assert s[i..j + |line|] == s[i..j] + s[j..j + |line|];
  }

  lemma NoLines()
    ensures Lines("") == [] && Texts([]) == [] && LineEnd("") == 0 && AtLineEnd("")
  {
  }

  lemma TailHasNoLine(a: string, tail: string)
    requires AtLineEnd(a) && '\n' !in tail
    ensures Lines(a + tail) == Lines(a) && LineEnd(a + tail) == |a|
  {
    hide Lines, LineEnd;
    LinesConcat(a, tail);
    LinesNone(tail);
  }

  lemma OneMoreLine(a: string, line: string)
    requires AtLineEnd(a) && IsLine(line)
    ensures Texts(Lines(a + line)) == Texts(Lines(a)) + Texts([line]) && AtLineEnd(a + line)
  {
    hide Lines, Texts, LineEnd;
    LinesConcat(a, line);
    TextsConcat(Lines(a), [line]);
    LinesNone("");
    LinesCons(line, "");
    assert line + "" == line;
    assert [line] + [] == [line];
  }

  /** The lines of a text are the text up to its last newline, cut behind every newline. */
  lemma {:induction false} LinesAreTheText(s: string)
    ensures Joined(Lines(s)) == s[..LineEnd(s)]
    ensures forall l <- Lines(s) :: IsLine(l)
    decreases |s|
  {
    hide Lines, LineEnd, IsLine;
    if '\n' !in s {
      LinesNone(s);
    } else {
      var line, rest := FirstLine(s);
      LineNotEmpty(line);
      LinesAreTheText(rest);
      LinesCons(line, rest);
      assert s[..LineEnd(s)] == line + rest[..LineEnd(rest)];
      assert Lines(s)[1..] == Lines(rest);
    }
  }

  function Joined(lines: seq<string>): string {
    if lines == [] then "" else lines[0] + Joined(lines[1..])
  }

  // ---- chunking ----

  datatype Tail = Tail(content: string, cursor: nat, fed: seq<string>)

  predicate WellPlaced(t: Tail) { t.cursor <= |t.content| }

  /** An append and the drain that follows it, as DrainLines specifies a drain. */
  function Drained(t: Tail, bytes: string): (r: Tail)
    requires WellPlaced(t)
    ensures WellPlaced(r)
  {
    var content := t.content + bytes;
    var rest := content[t.cursor..];
    Tail(content, t.cursor + LineEnd(rest), t.fed + Texts(Lines(rest)))
  }

  function DrainedEach(t: Tail, appends: seq<string>): (r: Tail)
    requires WellPlaced(t)
    ensures WellPlaced(r)
    decreases |appends|
  {
    if appends == [] then t else DrainedEach(Drained(t, appends[0]), appends[1..])
  }

  lemma LineEndSplits(s: string)
    ensures var n := LineEnd(s);
            AtLineEnd(s[..n]) && s == s[..n] + s[n..] && '\n' !in s[n..] && (s[n..] == "" <==> AtLineEnd(s))
  {
    hide LineEnd;
    var n := LineEnd(s);
    assert s == s[..n] + s[n..];
    if n > 0 { assert s[..n][n - 1] == s[n - 1]; }
    if n < |s| { assert s[n..][|s| - 1 - n] == s[|s| - 1]; }
  }

  /** What follows an open line completes it. */
  lemma OpenLine(p: string, q: string)
    ensures var open := p[LineEnd(p)..];
            Lines(p + q) == Lines(p) + Lines(open + q) && LineEnd(p + q) == LineEnd(p) + LineEnd(open + q)
  {
    hide Lines, LineEnd, AtLineEnd;
    var n := LineEnd(p);
    var done, open := p[..n], p[n..];
    LineEndSplits(p);
    TailHasNoLine(done, open);
    LinesConcat(done, open + q);
    assert p + q == done + (open + q);
  }

  /** Two drains in a row are one drain of both appends. */
  lemma DrainTwice(t: Tail, a: string, b: string)
    requires WellPlaced(t)
    ensures Drained(Drained(t, a), b)
         == Drained(t, a + b)
  {
    hide Lines, Texts, LineEnd;
    var rest := (t.content + a)[t.cursor..];
    var open := rest[LineEnd(rest)..];
    OpenLine(rest, b);
    TextsConcat(Lines(rest), Lines(open + b));
    AppendedRest(t.content, t.cursor, LineEnd(rest), a, b);
  }

  lemma AppendedRest(content: string, cursor: nat, n: nat, a: string, b: string)
    requires cursor + n <= |content + a| && cursor <= |content|
    ensures var rest := (content + a)[cursor..];
            && content + a + b == content + (a + b)
            && (content + a + b)[cursor + n..] == rest[n..] + b
            && (content + (a + b))[cursor..] == rest + b
  {
  }

  /** However the bytes are split into appends with a drain after each: the parser gets every
      complete non-blank line behind the starting cursor once, in order, and the cursor ends
      just past the last newline; exactly as with one append of everything. */
  lemma {:induction false} ChunkingIndependent(t: Tail, appends: seq<string>)
    requires WellPlaced(t) && appends != []
    ensures DrainedEach(t, appends)
         == Drained(t, Joined(appends))
    decreases |appends|
  {
    hide Drained;
    if |appends| == 1 {
      assert appends[1..] == [] && Joined(appends) == appends[0];
    } else {
      ChunkingIndependent(Drained(t, appends[0]), appends[1..]);
      DrainTwice(t, appends[0], Joined(appends[1..]));
    }
  }

  /** A failed read leaves the cursor where reading stopped. The lines fed before and after are
      those of the file exactly when it stopped at the end of a line, or no newline follows. */
  lemma FailedReadTearsLine(p: string, q: string)
    ensures Lines(p) + Lines(q) == Lines(p + q)
       <==> AtLineEnd(p) || '\n' !in q
  {
    hide Lines, LineEnd, AtLineEnd;
    var open := p[LineEnd(p)..];
    LineEndSplits(p);
    OpenLine(p, q);
    if open == "" {
      assert open + q == q;
    } else if '\n' !in q {
      LinesNone(q);
      LinesNone(open + q);
    } else {
      TornLine(open, q);
      assert (Lines(p) + Lines(q))[|Lines(p)|] == Lines(q)[0];
      assert (Lines(p) + Lines(open + q))[|Lines(p)|] == Lines(open + q)[0];
    }
  }

  lemma TornLine(open: string, q: string)
    requires open != "" && '\n' !in open && '\n' in q
    ensures Lines(q) != [] && Lines(open + q) != [] && Lines(q)[0] != Lines(open + q)[0]
  {
    hide Lines, LineEnd;
    var line, rest := FirstLine(q);
    LinesCons(line, rest);
    assert IsLine(open + line) by { assert (open + line)[..|open + line| - 1] == open + line[..|line| - 1]; }
    LinesCons(open + line, rest);
    assert open + q == (open + line) + rest;
    assert |line| != |open + line|;
  }

  // ---- what reaches the channel ----

  /** The chosen places, in order. */
  ghost predicate InOrder(at: seq<nat>, chosen: set<nat>) {
    && (forall i, k :: 0 <= i < k < |at| ==> at[i] < at[k])
    && (forall k :: k in at <==> k in chosen)
  }

  lemma OneMorePlace(at: seq<nat>, chosen: set<nat>, k: nat)
    requires InOrder(at, chosen) && forall i <- chosen :: i < k
    ensures InOrder(at + [k], chosen + {k})
  {
    forall i | 0 <= i < |at| ensures at[i] < k { assert at[i] in at; }
  }

  /** The parser recognises the k-th line, with what was fed before it. */
  predicate Recognises(parse: Parse, fed: seq<string>, k: nat) { k < |fed| && parse(fed[..k + 1]).Some? }

  function Recognised(parse: Parse, fed: seq<string>): set<nat> {
    set k: nat | k < |fed| && Recognises(parse, fed, k)
  }

  /** The reading of a line, named after the watcher's server, if that has a name. */
  ghost predicate ReadingOf(o: Reading, parse: Parse, server: string, fed: seq<string>, k: nat) {
    && Recognises(parse, fed, k)
    && o.event == parse(fed[..k + 1]).value.event
    && o.server == if server != "" then server else parse(fed[..k + 1]).value.server
  }

  /** What is offered are the readings of the lines that the parser recognised, one each, in order. */
  lemma {:induction false} OfferedExactly(parse: Parse, server: string, fed: seq<string>) returns (at: seq<nat>)
    ensures InOrder(at, Recognised(parse, fed)) && |Offered(parse, server, fed)| == |at|
    ensures forall i :: 0 <= i < |at| ==> ReadingOf(Offered(parse, server, fed)[i], parse, server, fed, at[i])
  {
    at := [];
    if fed != [] {
      hide InOrder;
      var n := |fed| - 1;
      var init := fed[..n];
      at := OfferedExactly(parse, server, init);
      RecognisedNext(parse, fed);
      assert fed[..n + 1] == fed;
      forall o: Reading, k: nat | ReadingOf(o, parse, server, init, k) ensures ReadingOf(o, parse, server, fed, k) {
        assert init[..k + 1] == fed[..k + 1];
      }
      if parse(fed).Some? {
        OneMorePlace(at, Recognised(parse, init), n);
        at := at + [n];
      }
    } else {
      assert InOrder(at, Recognised(parse, fed));
    }
  }

  lemma RecognisedNext(parse: Parse, fed: seq<string>)
    requires fed != []
    ensures Recognised(parse, fed)
         == Recognised(parse, fed[..|fed| - 1]) + if parse(fed).Some? then {|fed| - 1} else {}
  {
    var init := fed[..|fed| - 1];
    assert fed[..|fed|] == fed;
    forall k: nat | k < |init| ensures Recognises(parse, init, k) <==> Recognises(parse, fed, k) {
      assert init[..k + 1] == fed[..k + 1];
    }
  }

  /** The sends that find room. */
  function Open(room: nat -> bool, tries: nat): set<nat> { set k: nat | k < tries && room(k) }

  /** What the channel takes is what it is offered while it has room, in order; the rest is dropped. */
  lemma {:induction false} DeliveredExactly(room: nat -> bool, offered: seq<Reading>) returns (at: seq<nat>)
    ensures InOrder(at, Open(room, |offered|)) && |Delivered(room, offered)| == |at|
    ensures forall i :: 0 <= i < |at| ==> at[i] < |offered| && Delivered(room, offered)[i] == offered[at[i]]
  {
    at := [];
    if offered != [] {
      hide InOrder;
      var n := |offered| - 1;
      at := DeliveredExactly(room, offered[..n]);
      assert Open(room, n + 1) == Open(room, n) + if room(n) then {n} else {};
      if room(n) {
        OneMorePlace(at, Open(room, n), n);
        at := at + [n];
      }
    } else {
      assert InOrder(at, Open(room, 0));
    }
  }
}
