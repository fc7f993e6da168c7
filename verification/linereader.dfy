// Reading from the server (read_from_server in Sources/connect.c): bytes arrive in pieces of any
// size and are cut into lines of four fields, in static buffers that are reused for every line.
module LineReader {

  import opened CaseFold
  import opened Lists

  datatype Message = Message(source: string, function_: string, target: string, body: string)

  // ----- what a stream of bytes says -----

  /** Position of the first `c`, or the length of the string. */
  function IndexOf(s: string, c: char): (i: nat)
    ensures i <= |s| && (forall j | 0 <= j < i :: s[j] != c) && (i < |s| ==> s[i] == c)
  {
    if s == [] || s[0] == c then 0
    else
      var i := IndexOf(s[1..], c);
      assert forall j | 1 <= j < i + 1 :: s[j] == s[1..][j - 1];
      i + 1
  }

  function WithoutCR(s: string): string {
    if s == [] then [] else (if s[0] == '\r' then [] else [s[0]]) + WithoutCR(s[1..])
  }

  /** The text cut at its first `k` spaces. */
  function Split(s: string, k: nat): (parts: seq<string>)
    ensures 1 <= |parts| <= k + 1
    decreases k
  {
    var i := IndexOf(s, ' ');
    if k == 0 || i == |s| then [s] else [s[..i]] + Split(s[i + 1..], k - 1)
  }

  function Part(parts: seq<string>, i: nat): string {
    if i < |parts| then parts[i] else ""
  }

  /** Source, function, target, and the rest with its spaces; what is missing is empty. */
  function Parse(line: string): Message {
    var parts := Split(line, 3);
    Message(Part(parts, 0), Part(parts, 1), Part(parts, 2), Part(parts, 3))
  }

  /** The messages of a stream: one for each complete line. */
  function Messages(stream: string): seq<Message>
    decreases |stream|
  {
    var i := IndexOf(stream, '\n');
    if i == |stream| then [] else [Parse(WithoutCR(stream[..i]))] + Messages(stream[i + 1..])
  }

  /** The beginning of a line that the stream ends with. */
  function Unfinished(stream: string): string
    decreases |stream|
  {
    var i := IndexOf(stream, '\n');
    if i == |stream| then WithoutCR(stream) else Unfinished(stream[i + 1..])
  }

  lemma IndexAppend(s: string, t: string, c: char)
    ensures IndexOf(s + t, c) == if IndexOf(s, c) < |s| then IndexOf(s, c) else |s| + IndexOf(t, c)
  {
    var i := IndexOf(s, c);
    if i == |s| {
      IndexBehind(s, t, c);
    } else {
      assert (s + t)[i] == c && forall j | 0 <= j < i :: (s + t)[j] == s[j];
    }
  }

  lemma {:induction false} IndexBehind(s: string, t: string, c: char)
    requires IndexOf(s, c) == |s|
    ensures IndexOf(s + t, c) == |s| + IndexOf(t, c)
    decreases |s|
  {
    if s == [] {
      assert s + t == t;
    } else {
      assert (s + t)[1..] == s[1..] + t;
      IndexBehind(s[1..], t, c);
    }
  }

  lemma {:induction false} WithoutCRAppend(s: string, c: char)
    ensures WithoutCR(s + [c]) == WithoutCR(s) + if c == '\r' then [] else [c]
  {
    if s == [] {
      assert s + [c] == [c] && [c][1..] == [];
    } else {
      DropFirst(s, [c]);
      WithoutCRAppend(s[1..], c);
      Assoc(if s[0] == '\r' then [] else [s[0]], WithoutCR(s[1..]), if c == '\r' then [] else [c]);
    }
  }

  /** One more byte: only a line end completes a message, and it starts a new line. */
  lemma OneByte(stream: string, c: char)
    ensures Messages(stream + [c]) == Messages(stream) + if c == '\n' then [Parse(Unfinished(stream))] else []
    ensures Unfinished(stream + [c]) == if c == '\n' then [] else Unfinished(stream) + if c == '\r' then [] else [c]
  {
    MessagesGrow(stream, c);
    UnfinishedGrows(stream, c);
  }

  lemma {:induction false} MessagesGrow(stream: string, c: char)
    ensures Messages(stream + [c]) == Messages(stream) + if c == '\n' then [Parse(Unfinished(stream))] else []
    decreases |stream|
  {
    var i := IndexOf(stream, '\n');
    if i < |stream| {
      LinePassed(stream, c);
      MessagesGrow(stream[i + 1..], c);
      Assoc([Parse(WithoutCR(stream[..i]))], Messages(stream[i + 1..]),
            if c == '\n' then [Parse(Unfinished(stream))] else []);
    } else {
      LastLine(stream, c);
    }
  }

  lemma {:induction false} UnfinishedGrows(stream: string, c: char)
    ensures Unfinished(stream + [c]) == if c == '\n' then [] else Unfinished(stream) + if c == '\r' then [] else [c]
    decreases |stream|
  {
    var i := IndexOf(stream, '\n');
    if i < |stream| {
      LinePassed(stream, c);
      UnfinishedGrows(stream[i + 1..], c);
    } else {
      LastLine(stream, c);
    }
  }

  lemma Slices(s: string, t: string, i: nat)
    requires i <= |s|
    ensures (s + t)[..i] == s[..i] && (s + t)[i..] == s[i..] + t
  {
  }

  lemma LinePassed(stream: string, c: char)
    requires IndexOf(stream, '\n') < |stream|
    ensures var i := IndexOf(stream, '\n');
      && IndexOf(stream + [c], '\n') == i
      && (stream + [c])[..i] == stream[..i] && (stream + [c])[i + 1..] == stream[i + 1..] + [c]
  {
    IndexAppend(stream, [c], '\n');
    Slices(stream, [c], IndexOf(stream, '\n'));
    Slices(stream, [c], IndexOf(stream, '\n') + 1);
  }

  lemma LastLine(stream: string, c: char)
    requires IndexOf(stream, '\n') == |stream|
    ensures Messages(stream + [c]) == if c == '\n' then [Parse(WithoutCR(stream))] else []
    ensures Unfinished(stream + [c]) == if c == '\n' then [] else WithoutCR(stream) + if c == '\r' then [] else [c]
  {
    IndexAppend(stream, [c], '\n');
    if c == '\n' {
      Slices(stream, [c], |stream|);
      assert stream[..|stream|] == stream && (stream + [c])[|stream| + 1..] == [];
    } else {
      WithoutCRAppend(stream, c);
    }
  }

  /** The parts of a line after one more character. */
  function Grown(p: seq<string>, k: nat, c: char): seq<string>
    requires p != []
  {
    if c == ' ' && |p| <= k then p + [""] else p[|p| - 1 := p[|p| - 1] + [c]]
  }

  lemma GrownTail(h: string, p: seq<string>, k: nat, c: char)
    requires p != [] && k > 0
    ensures [h] + Grown(p, k - 1, c) == Grown([h] + p, k, c)
  {
    assert [h] + (p + [""]) == ([h] + p) + [""];
    var m := |p| - 1;
    assert ([h] + p)[m + 1] == p[m];
    assert [h] + p[m := p[m] + [c]] == ([h] + p)[m + 1 := p[m] + [c]];
  }

  lemma SplitNoSpace(s: string, k: nat, c: char)
    requires k == 0 || IndexOf(s, ' ') == |s|
    ensures Split(s + [c], k) == Grown([s], k, c)
  {
    if k > 0 {
      IndexAppend(s, [c], ' ');
      if c == ' ' {
        Slices(s, [c], |s|);
        assert (s + [c])[|s| + 1..] == [] && s[..|s|] == s;
      }
    }
  }

  lemma SplitAtSpace(s: string, k: nat, c: char) returns (h: string, rest: string)
    requires k > 0 && IndexOf(s, ' ') < |s|
    ensures Split(s, k) == [h] + Split(rest, k - 1) && Split(s + [c], k) == [h] + Split(rest + [c], k - 1)
  {
    h, rest := s[..IndexOf(s, ' ')], s[IndexOf(s, ' ') + 1..];
    IndexAppend(s, [c], ' ');
    Slices(s, [c], IndexOf(s, ' '));
    Slices(s, [c], IndexOf(s, ' ') + 1);
  }

  lemma {:induction false} SplitAppend(s: string, k: nat, c: char)
    ensures Split(s + [c], k) == Grown(Split(s, k), k, c)
    decreases k
  {
    if k == 0 || IndexOf(s, ' ') == |s| {
      SplitNoSpace(s, k, c);
    } else {
      var h, rest := SplitAtSpace(s, k, c);
      SplitAppend(rest, k - 1, c);
      GrownTail(h, Split(rest, k - 1), k, c);
    }
  }

  // ----- what a message looks like -----

  /** A field of a message but the last. */
  predicate Field(w: string) {
    forall i | 0 <= i < |w| :: w[i] != ' ' && w[i] != '\r' && w[i] != '\n'
  }

  lemma FirstAt(s: string, i: nat, c: char)
    requires i < |s| && s[i] == c && forall j | 0 <= j < i :: s[j] != c
    ensures IndexOf(s, c) == i
  {
  }

  lemma SplitField(w: string, rest: string, k: nat)
    requires Field(w)
    ensures Split(w, k) == [w]
    ensures Split(w + (" " + rest), k + 1) == [w] + Split(rest, k)
  {
    FirstAt(w + (" " + rest), |w|, ' ');
    assert (w + (" " + rest))[..|w|] == w && (w + (" " + rest))[|w| + 1..] == rest;
  }

  lemma TwoFields(v: string, w: string, rest: string, k: nat)
    requires Field(v) && Field(w)
    ensures Split(v + (" " + w), k + 2) == [v, w]
    ensures Split(v + (" " + (w + (" " + rest))), k + 2) == [v, w] + Split(rest, k)
  {
    var n := k + 1;
    SplitField(w, rest, n);
    SplitField(w, rest, k);
    SplitField(v, w, n);
    SplitField(v, w + (" " + rest), n);
    InFront(v, w, Split(rest, k));
  }

  lemma InFront(v: string, w: string, parts: seq<string>)
    ensures [v] + ([w] + parts) == [v, w] + parts && [v] + [w] == [v, w]
  {
  }

  /** Up to three fields and the rest of a line are read back as they are; what is not there is empty. */
  lemma FieldsRead(source: string, function_: string, target: string, body: string)
    requires Field(source) && Field(function_) && Field(target)
    ensures Parse(source) == Message(source, "", "", "")
    ensures Parse(source + (" " + function_)) == Message(source, function_, "", "")
    ensures Parse(source + (" " + (function_ + (" " + target)))) == Message(source, function_, target, "")
    ensures Parse(source + (" " + (function_ + (" " + (target + (" " + body))))))
            == Message(source, function_, target, body)
  {
    SplitField(source, function_, 3);
    TwoFields(source, function_, target, 1);
    SplitField(target, body, 1);
    TwoFields(source, function_, target + (" " + body), 1);
    SplitField(target, body, 0);
  }

  predicate Sendable(m: Message) {
    && Field(m.source) && Field(m.function_) && Field(m.target)
    && forall i | 0 <= i < |m.body| :: m.body[i] != '\r' && m.body[i] != '\n'
  }

  lemma {:induction false} NoCR(s: string)
    requires forall i | 0 <= i < |s| :: s[i] != '\r'
    ensures WithoutCR(s) == s
  {
    if s != [] {
      NoCR(s[1..]);
    }
  }

  lemma LineCut(line: string, rest: string)
    requires forall i | 0 <= i < |line| :: line[i] != '\n'
    ensures Messages(line + ("\n" + rest)) == [Parse(WithoutCR(line))] + Messages(rest)
  {
    var stream := line + ("\n" + rest);
    FirstAt(stream, |line|, '\n');
    CutAt(line, '\n', rest);
  }

  lemma CutAt(a: string, c: char, b: string)
    ensures (a + ([c] + b))[..|a|] == a && (a + ([c] + b))[|a| + 1..] == b
  {
  }

  lemma LineOf(line: string, rest: string)
    requires forall i | 0 <= i < |line| :: line[i] != '\r' && line[i] != '\n'
    ensures Messages(line + "\r\n" + rest) == [Parse(line)] + Messages(rest)
  {
    assert line + "\r\n" + rest == line + "\r" + ("\n" + rest);
    LineCut(line + "\r", rest);
    WithoutCRAppend(line, '\r');
    NoCR(line);
    assert line + [] == line;
  }

  /** The line without its end. */
  function Text(m: Message): string {
    m.source + (" " + (m.function_ + (" " + (m.target + (" " + m.body)))))
  }

  lemma OneLine(m: Message)
    requires Sendable(m)
    ensures forall i | 0 <= i < |Text(m)| :: Text(m)[i] != '\r' && Text(m)[i] != '\n'
  {
    var back := m.target + (" " + m.body);
    assert forall i | 0 <= i < |back| :: back[i] != '\r' && back[i] != '\n';
    var rest := m.function_ + (" " + back);
    assert forall i | 0 <= i < |rest| :: rest[i] != '\r' && rest[i] != '\n';
  }

  /** Whatever messages are sent one after the other arrive as they are. */
  lemma SentArrives(m: Message, rest: string)
    requires Sendable(m)
    ensures Messages(Text(m) + "\r\n" + rest) == [m] + Messages(rest)
  {
    OneLine(m);
    LineOf(Text(m), rest);
    FieldsRead(m.source, m.function_, m.target, m.body);
  }

  // ----- the reader -----

  /** What C sees in a buffer: everything before the first NUL. */
  function CStr(buf: string): string {
    buf[..IndexOf(buf, NUL)]
  }

  /** Writing one character into a buffer, whatever an older line left behind it. */
  function Put(buf: string, i: nat, c: char): (r: string)
    requires i <= |buf|
    ensures i < |r| && r[i] == c && r[..i] == buf[..i]
  {
    if i < |buf| then buf[i := c] else buf + [c]
  }

  lemma CStrIs(buf: string, n: nat)
    requires n < |buf| && buf[n] == NUL && NulFree(buf[..n])
    ensures CStr(buf) == buf[..n]
  {
    assert forall j | 0 <= j < n :: buf[j] == buf[..n][j];
  }

  /** Buffer number `i` holds its part of the line read so far: finished parts are terminated, the
      current one has its characters in place, later ones are empty. */
  predicate BufferOk(buf: string, i: nat, parts: seq<string>, offset: nat) {
    if i + 1 < |parts| then CStr(buf) == parts[i]
    else if i + 1 == |parts| then offset == |parts[i]| && offset <= |buf| && buf[..offset] == parts[i]
    else buf != [] && buf[0] == NUL
  }

  /** Terminating the current field: what C sees in each buffer is the part it stands for. */
  lemma FieldEnds(buf: string, i: nat, p: seq<string>, offset: nat)
    requires BufferOk(buf, i, p, offset) && p != [] && NulFree(p[|p| - 1])
    ensures i + 1 == |p| ==> offset <= |buf|
    ensures var buf' := if i + 1 == |p| then Put(buf, offset, NUL) else buf;
            BufferOk(buf', i, p + [""], 0) && (i != |p| ==> CStr(buf') == Part(p, i))
            && (i == |p| ==> CStr(buf') == "")
  {
    if i + 1 == |p| {
      CStrIs(Put(buf, offset, NUL), offset);
    }
  }

  lemma FieldGrows(buf: string, i: nat, p: seq<string>, offset: nat, c: char)
    requires BufferOk(buf, i, p, offset) && p != []
    ensures i + 1 == |p| ==> offset <= |buf|
    ensures var buf' := if i + 1 == |p| then Put(buf, offset, c) else buf;
            BufferOk(buf', i, p[|p| - 1 := p[|p| - 1] + [c]], offset + 1)
  {
    if i + 1 == |p| {
      var buf' := Put(buf, offset, c);
      assert buf'[..offset + 1] == buf'[..offset] + [c];
    }
  }

  function Join(pieces: seq<string>): string {
    if pieces == [] then [] else Join(pieces[..|pieces| - 1]) + pieces[|pieces| - 1]
  }

  lemma JoinNext(pieces: seq<string>, k: nat)
    requires k < |pieces|
    ensures Join(pieces[..k + 1]) == Join(pieces[..k]) + pieces[k]
  {
    assert pieces[..k + 1][..k] == pieces[..k];
  }

  lemma {:induction false} UnfinishedNulFree(stream: string)
    requires NulFree(stream)
    ensures NulFree(Unfinished(stream))
    decreases |stream|
  {
    var i := IndexOf(stream, '\n');
    if i == |stream| {
      WithoutCRNulFree(stream);
    } else {
      UnfinishedNulFree(stream[i + 1..]);
    }
  }

  lemma {:induction false} WithoutCRNulFree(s: string)
    requires NulFree(s)
    ensures NulFree(WithoutCR(s))
  {
    if s != [] {
      WithoutCRNulFree(s[1..]);
    }
  }

  class Reader {
    var source: string
    var function_: string
    var target: string
    var body: string
    var inPos: nat
    var inOffset: nat
    /** All bytes read since the last reset, and all calls of proc(). */
    ghost var stream: string
    ghost var calls: seq<Message>

    ghost predicate Buffers(parts: seq<string>)
      reads this
    {
      && inPos + 1 == |parts| <= 4
      && BufferOk(source, 0, parts, inOffset) && BufferOk(function_, 1, parts, inOffset)
      && BufferOk(target, 2, parts, inOffset) && BufferOk(body, 3, parts, inOffset)
    }

    ghost predicate Valid()
      reads this
    {
      NulFree(stream) && calls == Messages(stream) && Buffers(Split(Unfinished(stream), 3))
    }

    /** The initial buffers, and a reset. */
    constructor ()
      ensures Valid() && stream == "" && calls == []
    {
      source, function_, target, body := [NUL], [NUL], [NUL], [NUL];
      inPos, inOffset := 0, 0;
      stream, calls := "", [];
    }

    /** Is there room in the current buffer's past, so that it can take a character? */
    ghost predicate Ready()
      reads this
    {
      match inPos
      case 0 => inOffset <= |source|
      case 1 => inOffset <= |function_|
      case 2 => inOffset <= |target|
      case _ => inOffset <= |body|
    }

    /** The character goes into the current buffer. */
    method Store(c: char)
      requires Ready()
      modifies `source, `function_, `target, `body
      ensures source == if inPos == 0 then Put(old(source), inOffset, c) else old(source)
      ensures function_ == if inPos == 1 then Put(old(function_), inOffset, c) else old(function_)
      ensures target == if inPos == 2 then Put(old(target), inOffset, c) else old(target)
      ensures body == if inPos >= 3 then Put(old(body), inOffset, c) else old(body)
    {
      if inPos == 0 {
        source := Put(source, inOffset, c);
      } else if inPos == 1 {
        function_ := Put(function_, inOffset, c);
      } else if inPos == 2 {
        target := Put(target, inOffset, c);
      } else {
        body := Put(body, inOffset, c);
      }
    }

    /** A character of the line: one of the first three spaces ends a field. */
    method InLine(c: char, ghost p: seq<string>)
      requires p != [] && Buffers(p) && NulFree(p[|p| - 1])
      modifies `source, `function_, `target, `body, `inPos, `inOffset
      ensures Buffers(Grown(p, 3, c))
    {
      if c == ' ' && inPos < 3 {
        FieldEnds(source, 0, p, inOffset);
        FieldEnds(function_, 1, p, inOffset);
        FieldEnds(target, 2, p, inOffset);
        FieldEnds(body, 3, p, inOffset);
        Store(NUL);
        inPos, inOffset := inPos + 1, 0;
      } else {
        FieldGrows(source, 0, p, inOffset, c);
        FieldGrows(function_, 1, p, inOffset, c);
        FieldGrows(target, 2, p, inOffset, c);
        FieldGrows(body, 3, p, inOffset, c);
        Store(c);
        inOffset := inOffset + 1;
      }
    }

    /** The end of a line: proc() gets the buffers as C strings, then they start afresh. */
    method EndLine(ghost p: seq<string>) returns (m: Message)
      requires p != [] && Buffers(p) && NulFree(p[|p| - 1])
      modifies `source, `function_, `target, `body, `inPos, `inOffset
      ensures m == Message(Part(p, 0), Part(p, 1), Part(p, 2), Part(p, 3)) && Buffers([""])
    {
      FieldEnds(source, 0, p, inOffset);
      FieldEnds(function_, 1, p, inOffset);
      FieldEnds(target, 2, p, inOffset);
      FieldEnds(body, 3, p, inOffset);
      Store(NUL);
      if inPos < 3 {
        body := Put(body, 0, NUL);
      }
      m := Message(CStr(source), CStr(function_), CStr(target), CStr(body));
      inPos, inOffset := 0, 0;
      source, function_, target, body :=
        Put(source, 0, NUL), Put(function_, 0, NUL), Put(target, 0, NUL), Put(body, 0, NUL);
    }

    /** One byte from the server, after `line` */
    method TakeByte(c: char, ghost line: string) returns (ghost called: seq<Message>)
      requires c != NUL && NulFree(line) && Buffers(Split(line, 3))
      modifies `source, `function_, `target, `body, `inPos, `inOffset
      ensures Buffers(Split(if c == '\n' then [] else line + if c == '\r' then [] else [c], 3))
      ensures called == if c == '\n' then [Parse(line)] else []
    {
      called := [];
      SplitNulFree(line, 3);
      if c != '\n' && c != '\r' {
        SplitAppend(line, 3, c);
        InLine(c, Split(line, 3));
      }
      if c == '\n' {
        var m := EndLine(Split(line, 3));
        called := [m];
      }
      assert line + [] == line;
    }

    method Take(c: char)
      requires Valid() && c != NUL
      modifies this
      ensures Valid() && stream == old(stream) + [c]
    {
      OneByte(stream, c);
      UnfinishedNulFree(stream);
      ghost var called := TakeByte(c, Unfinished(stream));
      calls := calls + called;
      stream := stream + [c];
    }

    /** One piece of input, as read() delivers it */
    method Feed(piece: string)
      requires Valid() && NulFree(piece)
      modifies this
      ensures Valid() && stream == old(stream) + piece
    {
      var i := 0;
      while i < |piece|
        invariant i <= |piece| && Valid() && stream == old(stream) + piece[..i]
      {
        Take(piece[i]);
        AppendNext(old(stream), piece, i);
        i := i + 1;
      }
      assert piece[..|piece|] == piece;
    }

    /** However the stream is cut into pieces, proc() is called once for each complete line, in order,
        with the fields of that line. */
    method FeedAll(pieces: seq<string>)
      requires Valid() && forall k | 0 <= k < |pieces| :: NulFree(pieces[k])
      modifies this
      ensures Valid() && stream == old(stream) + Join(pieces) && calls == Messages(old(stream) + Join(pieces))
    {
      var k := 0;
      while k < |pieces|
        invariant k <= |pieces| && Valid() && stream == old(stream) + Join(pieces[..k])
      {
        JoinNext(pieces, k);
        Feed(pieces[k]);
        Assoc(old(stream), Join(pieces[..k]), pieces[k]);
        k := k + 1;
      }
      assert pieces[..k] == pieces;
    }
  }

  lemma {:induction false} SplitNulFree(s: string, k: nat)
    requires NulFree(s)
    ensures forall i | 0 <= i < |Split(s, k)| :: NulFree(Split(s, k)[i])
    decreases k
  {
    var i := IndexOf(s, ' ');
    if k > 0 && i < |s| {
      SplitNulFree(s[i + 1..], k - 1);
    }
  }
}
