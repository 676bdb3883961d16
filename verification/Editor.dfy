/** The text editor of kernel/src/apps/editor.rs against a flat byte string with one
    offset: lines joined by newlines, each line a gap buffer. */
module Editor {
  import opened Common
  import opened GapBuffers

  const NEWLINE: Byte := 10

  type Text = seq<seq<Byte>>

  // ---------------------------------------------------------------------------
  // The flat document

  /** The lines with a newline between any two. */
  function Join(ls: Text): seq<Byte> {
    if |ls| == 0 then [] else ls[0] + Post(ls[1..])
  }

  /** What follows a line: a newline before each further line. */
  function Post(q: Text): seq<Byte> {
    if q == [] then [] else [NEWLINE] + q[0] + Post(q[1..])
  }

  /** What precedes a line: every earlier line with its newline. */
  function Pre(p: Text): seq<Byte> {
    if p == [] then [] else p[0] + [NEWLINE] + Pre(p[1..])
  }

  /** The offset of a line and column in the document. */
  function Offset(ls: Text, line: nat, col: nat): nat
    requires line < |ls|
  {
    |Pre(ls[..line])| + col
  }

  function InsertAt(d: seq<Byte>, at: nat, b: Byte): seq<Byte>
    requires at <= |d|
  {
    d[..at] + [b] + d[at..]
  }

  function RemoveAt(d: seq<Byte>, at: nat): seq<Byte>
    requires at < |d|
  {
    d[..at] + d[at + 1..]
  }

  lemma {:induction false} PostConcat(p: Text, q: Text)
    ensures Post(p + q) == Post(p) + Post(q)
  {
    if p == [] {
      assert p + q == q;
    } else {
      assert (p + q)[1..] == p[1..] + q;
      PostConcat(p[1..], q);
    }
  }

  lemma {:induction false} PostPre(p: Text, x: seq<Byte>)
    ensures Post(p + [x]) == [NEWLINE] + Pre(p) + x
  {
    if p == [] {
      assert p + [x] == [x];
      assert Post([x]) == [NEWLINE] + x + Post([]);
    } else {
      assert (p + [x])[1..] == p[1..] + [x];
      PostPre(p[1..], x);
    }
  }

  lemma PostAround(p: Text, x: seq<Byte>, q: Text)
    ensures Post(p + [x] + q) == [NEWLINE] + Pre(p) + x + Post(q)
  {
    PostConcat(p + [x], q);
    PostPre(p, x);
  }

  lemma Regroup(a: seq<Byte>, b: seq<Byte>, c: seq<Byte>, d: seq<Byte>)
    ensures a + ([NEWLINE] + b + c + d) == (a + [NEWLINE] + b) + c + d
  {
  }

  /** The document around one line. */
  lemma JoinAround(p: Text, x: seq<Byte>, q: Text)
    ensures Join(p + [x] + q) == Pre(p) + x + Post(q)
  {
    var ls := p + [x] + q;
    if p == [] {
      assert ls[0] == x && ls[1..] == q;
    } else {
      assert ls[0] == p[0] && ls[1..] == p[1..] + [x] + q;
      PostAround(p[1..], x, q);
      Regroup(p[0], Pre(p[1..]), x, Post(q));
    }
  }

  lemma LineAround(ls: Text, i: nat)
    requires i < |ls|
    ensures ls == ls[..i] + [ls[i]] + ls[i + 1..]
    ensures Join(ls) == Pre(ls[..i]) + ls[i] + Post(ls[i + 1..])
  {
    JoinAround(ls[..i], ls[i], ls[i + 1..]);
    assert ls == ls[..i] + [ls[i]] + ls[i + 1..];
  }

  /** Every valid cursor is an offset in the document. */
  lemma OffsetInDocument(ls: Text, i: nat, c: nat)
    requires i < |ls| && c <= |ls[i]|
    ensures Offset(ls, i, c) <= |Join(ls)|
    ensures c < |ls[i]| ==> Offset(ls, i, c) < |Join(ls)| && Join(ls)[Offset(ls, i, c)] == ls[i][c]
  {
    LineAround(ls, i);
  }

  /** A line ends at the end of the document or at a newline. */
  lemma EndOfLine(ls: Text, i: nat)
    requires i < |ls|
    ensures var at := Offset(ls, i, |ls[i]|); at <= |Join(ls)| && (at < |Join(ls)| ==> Join(ls)[at] == NEWLINE)
  {
    LineAround(ls, i);
  }

  lemma LineReplaced(ls: Text, i: nat, x: seq<Byte>)
    requires i < |ls|
    ensures ls[i := x] == ls[..i] + [x] + ls[i + 1..]
    ensures Join(ls[i := x]) == Pre(ls[..i]) + x + Post(ls[i + 1..])
    ensures ls[i := x][..i] == ls[..i]
  {
    assert ls[i := x] == ls[..i] + [x] + ls[i + 1..];
    JoinAround(ls[..i], x, ls[i + 1..]);
  }

  /** Inserting a byte in a line inserts it in the document. */
  lemma InsertInLine(ls: Text, i: nat, c: nat, b: Byte)
    requires i < |ls| && c <= |ls[i]|
    ensures Offset(ls, i, c) <= |Join(ls)|
    ensures var ls' := ls[i := ls[i][..c] + [b] + ls[i][c..]];
            Join(ls') == InsertAt(Join(ls), Offset(ls, i, c), b) && Offset(ls', i, c + 1) == Offset(ls, i, c) + 1
  {
    LineAround(ls, i);
    LineReplaced(ls, i, ls[i][..c] + [b] + ls[i][c..]);
    Surround(Pre(ls[..i]), ls[i], Post(ls[i + 1..]), c, [b]);
  }

  lemma Surround(p: seq<Byte>, x: seq<Byte>, q: seq<Byte>, c: nat, mid: seq<Byte>)
    requires c <= |x|
    ensures p + (x[..c] + mid + x[c..]) + q == (p + x + q)[..|p| + c] + mid + (p + x + q)[|p| + c..]
  {
  }

  lemma Cut(p: seq<Byte>, x: seq<Byte>, q: seq<Byte>, c: nat)
    requires c < |x|
    ensures p + (x[..c] + x[c + 1..]) + q == (p + x + q)[..|p| + c] + (p + x + q)[|p| + c + 1..]
  {
  }

  /** Deleting a byte of a line deletes it in the document. */
  lemma DeleteInLine(ls: Text, i: nat, c: nat)
    requires i < |ls| && c < |ls[i]|
    ensures Offset(ls, i, c) < |Join(ls)|
    ensures var ls' := ls[i := ls[i][..c] + ls[i][c + 1..]];
            Join(ls') == RemoveAt(Join(ls), Offset(ls, i, c)) && Offset(ls', i, c) == Offset(ls, i, c)
  {
    LineAround(ls, i);
    LineReplaced(ls, i, ls[i][..c] + ls[i][c + 1..]);
    Cut(Pre(ls[..i]), ls[i], Post(ls[i + 1..]), c);
  }

  /** The lines with line `i` split at column `c`. */
  function SplitText(ls: Text, i: nat, c: nat): (r: Text)
    requires i < |ls| && c <= |ls[i]|
    ensures |r| == |ls| + 1 && r[i + 1] == ls[i][c..]
  {
    ls[..i] + [ls[i][..c], ls[i][c..]] + ls[i + 1..]
  }

  /** The lines with line `i` appended to the one before. */
  function JoinText(ls: Text, i: nat): (r: Text)
    requires 0 < i < |ls|
    ensures |r| == |ls| - 1 && r[i - 1] == ls[i - 1] + ls[i]
  {
    ls[..i - 1] + [ls[i - 1] + ls[i]] + ls[i + 1..]
  }

  lemma SplitTextIsInsert(ls: Text, i: nat, c: nat)
    requires i < |ls| && c <= |ls[i]|
    ensures var cut := ls[i := ls[i][..c]]; SplitText(ls, i, c) == cut[..i + 1] + [ls[i][c..]] + cut[i + 1..]
  {
  }

  lemma JoinTextIsRemove(ls: Text, i: nat)
    requires 0 < i < |ls|
    ensures var rest := ls[..i] + ls[i + 1..];
            rest[i - 1] == ls[i - 1] && JoinText(ls, i) == rest[i - 1 := rest[i - 1] + ls[i]]
  {
  }

  /** Splitting a line inserts a newline in the document. */
  lemma SplitLine(ls: Text, i: nat, c: nat)
    requires i < |ls| && c <= |ls[i]|
    ensures Offset(ls, i, c) <= |Join(ls)|
    ensures var ls' := SplitText(ls, i, c);
            Join(ls') == InsertAt(Join(ls), Offset(ls, i, c), NEWLINE) && Offset(ls', i + 1, 0) == Offset(ls, i, c) + 1
  {
    var p, a, b, q := ls[..i], ls[i][..c], ls[i][c..], ls[i + 1..];
    var ls' := SplitText(ls, i, c);
    LineAround(ls, i);
    assert Join(ls') == Pre(p) + (a + [NEWLINE] + b) + Post(q) by {
      assert ls' == p + [a] + ([b] + q);
      JoinAround(p, a, [b] + q);
      PostCons(b, q);
      hide Join, Pre, Post;
    }
    assert Offset(ls', i + 1, 0) == Offset(ls, i, c) + 1 by {
      assert ls'[..i + 1] == p + [a];
      PreSnoc(p, a);
      hide Join, Pre, Post;
    }
    hide Join, Pre, Post, SplitText;
    Surround(Pre(p), ls[i], Post(q), c, [NEWLINE]);
  }

  lemma PostCons(b: seq<Byte>, q: Text)
    ensures Post([b] + q) == [NEWLINE] + b + Post(q)
  {
    assert ([b] + q)[1..] == q;
  }

  lemma {:induction false} PreSnoc(p: Text, x: seq<Byte>)
    ensures Pre(p + [x]) == Pre(p) + x + [NEWLINE]
  {
    if p == [] {
      assert p + [x] == [x];
      assert Pre([x]) == x + [NEWLINE] + Pre([]);
    } else {
      assert (p + [x])[1..] == p[1..] + [x];
      PreSnoc(p[1..], x);
    }
  }

  /** Joining a line to the one before deletes the newline between them. */
  lemma JoinLines(ls: Text, i: nat)
    requires 0 < i < |ls|
    ensures 0 < Offset(ls, i, 0) <= |Join(ls)| && Join(ls)[Offset(ls, i, 0) - 1] == NEWLINE
    ensures var ls' := JoinText(ls, i);
            && Join(ls') == RemoveAt(Join(ls), Offset(ls, i, 0) - 1)
            && Offset(ls', i - 1, |ls[i - 1]|) == Offset(ls, i, 0) - 1
  {
    var p, a, b, q := ls[..i - 1], ls[i - 1], ls[i], ls[i + 1..];
    var ls' := JoinText(ls, i);
    assert ls[..i] == p + [a] && ls'[..i - 1] == p;
    PreSnoc(p, a);
    LineAround(ls, i);
    JoinAround(p, a + b, q);
    hide Join, Pre, Post, JoinText;
    DropNewline(Pre(p), a, b, Post(q));
  }

  lemma DropNewline(p: seq<Byte>, a: seq<Byte>, b: seq<Byte>, q: seq<Byte>)
    ensures var d := p + a + [NEWLINE] + b + q; var at := |p| + |a|;
            d[at] == NEWLINE && RemoveAt(d, at) == p + (a + b) + q
  {
    var d := p + a + [NEWLINE] + b + q;
    var at := |p| + |a|;
    assert d[..at] == p + a && d[at + 1..] == b + q;
  }

  // ---------------------------------------------------------------------------
  // Loading and saving

  predicate NoNewline(x: seq<Byte>) { NEWLINE !in x }

  /** The lines of a file: the pieces between newlines. */
  function Split(data: seq<Byte>): (ls: Text)
    ensures |ls| > 0 && forall i :: 0 <= i < |ls| ==> NoNewline(ls[i])
  {
    if data == [] then [[]]
    else
      var rest := Split(data[1..]);
      if data[0] == NEWLINE then [[]] + rest
      else [[data[0]] + rest[0]] + rest[1..]
  }

  /** Saving what was loaded gives the same bytes. */
  lemma {:induction false} JoinSplit(data: seq<Byte>)
    ensures Join(Split(data)) == data
  {
    if data != [] {
      var rest := Split(data[1..]);
      JoinSplit(data[1..]);
      if data[0] == NEWLINE {
        assert Split(data)[1..] == rest;
        assert Post(rest) == [NEWLINE] + rest[0] + Post(rest[1..]);
        assert data == [NEWLINE] + data[1..];
      } else {
        assert Split(data)[1..] == rest[1..];
        assert data == [data[0]] + data[1..];
      }
    }
  }

  lemma {:induction false} SplitPrefix(x: seq<Byte>, rest: seq<Byte>)
    requires NoNewline(x)
    ensures Split(x + rest) == [x + Split(rest)[0]] + Split(rest)[1..]
  {
    if x == [] {
      assert x + rest == rest;
      assert x + Split(rest)[0] == Split(rest)[0];
      assert Split(rest) == [Split(rest)[0]] + Split(rest)[1..];
    } else {
      assert (x + rest)[1..] == x[1..] + rest && (x + rest)[0] == x[0];
      SplitPrefix(x[1..], rest);
      var s := Split(rest);
      assert x[0] != NEWLINE;
      assert [x[0]] + (x[1..] + s[0]) == x + s[0];
    }
  }

  /** Loading what was saved gives the same lines, if no line holds a newline. */
  lemma {:induction false} SplitJoin(ls: Text)
    requires |ls| > 0 && forall i :: 0 <= i < |ls| ==> NoNewline(ls[i])
    ensures Split(Join(ls)) == ls
    decreases |ls|
  {
    SplitPrefix(ls[0], Post(ls[1..]));
    if |ls| == 1 {
      assert Post(ls[1..]) == [] && Split([]) == [[]];
      assert ls[0] + [] == ls[0] && ls == [ls[0]];
    } else {
      var rest := Join(ls[1..]);
      SplitJoin(ls[1..]);
      assert Post(ls[1..]) == [NEWLINE] + rest;
      assert ([NEWLINE] + rest)[1..] == rest;
      var s := Split([NEWLINE] + rest);
      assert s == [[]] + ls[1..];
      assert s[0] == [] && s[1..] == ls[1..] && ls[0] + [] == ls[0];
      assert ls == [ls[0]] + ls[1..];
    }
  }

  // ---------------------------------------------------------------------------
  // The editor

  /** No line holds a newline. */
  predicate Plain(text: Text) { forall i :: 0 <= i < |text| ==> NoNewline(text[i]) }

  lemma PlainSplit(text: Text, i: nat, c: nat)
    requires Plain(text) && i < |text| && c <= |text[i]|
    ensures Plain(SplitText(text, i, c))
  {
    assert NoNewline(text[i]);
    assert NoNewline(text[i][..c]) && NoNewline(text[i][c..]);
  }

  lemma PlainJoin(text: Text, i: nat)
    requires Plain(text) && 0 < i < |text|
    ensures Plain(JoinText(text, i))
  {
    assert NoNewline(text[i]) && NoNewline(text[i - 1]);
  }

  lemma NothingBefore(ls: Text)
    requires |ls| > 0
    ensures Offset(ls, 0, 0) == 0
  {
  }

  /** Distinct buffers that hold the lines of a text. */
  ghost predicate Holds(lines: seq<GapBuffer>, text: Text)
    reads lines
  {
    && |text| == |lines|
    && (forall i :: 0 <= i < |lines| ==> lines[i].Valid() && lines[i].Content() == text[i])
    && (forall i, j :: 0 <= i < j < |lines| ==> lines[i] != lines[j])
  }

  lemma HoldsInserted(lines: seq<GapBuffer>, text: Text, at: nat, l: GapBuffer, x: seq<Byte>)
    requires Holds(lines, text) && at <= |lines| && l !in lines && l.Valid() && l.Content() == x
    ensures Holds(lines[..at] + [l] + lines[at..], text[..at] + [x] + text[at..])
  {
    hide Outside;
  }

  /** The loop of load: one buffer per line of the file. */
  method LoadLines(data: seq<Byte>) returns (lines: seq<GapBuffer>, ghost text: Text)
    ensures Holds(lines, text) && fresh(lines) && text == Split(data)
  {
    hide Split, Outside;
    lines, text := [], [];
    var lineStart := 0;
    assert data[0..] == data && text + Split(data) == Split(data);
    for i := 0 to |data|
      invariant lineStart <= i && fresh(lines) && Holds(lines, text)
      invariant NoNewline(data[lineStart..i])
      invariant Split(data) == text + Split(data[lineStart..])
    {
      if data[i] == NEWLINE {
        SplitAtNewline(data, lineStart, i);
        var l := new GapBuffer(data[lineStart..i]);
        lines := lines + [l];
        text := text + [data[lineStart..i]];
        lineStart := i + 1;
      }
    }
    assert data[lineStart..|data|] == data[lineStart..];
    SplitLast(data[lineStart..]);
    var l := new GapBuffer(data[lineStart..]);
    lines := lines + [l];
    text := text + [data[lineStart..]];
  }

  lemma HoldsLines(lines: seq<GapBuffer>, text: Text)
    requires Holds(lines, text)
    ensures |text| == |lines| && forall i :: 0 <= i < |lines| ==> lines[i].Valid() && lines[i].Content() == text[i]
  {
  }

  lemma HoldsRemoved(lines: seq<GapBuffer>, text: Text, at: nat)
    requires Holds(lines, text) && at < |lines|
    ensures Holds(lines[..at] + lines[at + 1..], text[..at] + text[at + 1..])
  {
    hide Outside;
    var ls, ts := lines[..at] + lines[at + 1..], text[..at] + text[at + 1..];
    assert forall i :: 0 <= i < |ls| ==>
      ls[i] == lines[if i < at then i else i + 1] && ts[i] == text[if i < at then i else i + 1];
  }

  /** Delete a byte of one of the lines. */
  method DeleteIn(lines: seq<GapBuffer>, ghost text: Text, at: nat, c: nat)
    requires Holds(lines, text) && at < |lines| && c < |text[at]|
    modifies lines
    ensures Holds(lines, text[at := text[at][..c] + text[at][c + 1..]])
  {
    hide Outside;
    lines[at].Delete(c);
  }

  /** Insert a byte in one of the lines. */
  method InsertIn(lines: seq<GapBuffer>, ghost text: Text, at: nat, c: nat, b: Byte)
    requires Holds(lines, text) && at < |lines| && c <= |text[at]|
    modifies lines
    ensures Holds(lines, text[at := text[at][..c] + [b] + text[at][c..]])
  {
    hide Outside;
    lines[at].Insert(c, b);
  }

  lemma PlainDelete(text: Text, i: nat, c: nat)
    requires Plain(text) && i < |text| && c < |text[i]|
    ensures Plain(text[i := text[i][..c] + text[i][c + 1..]])
  {
    assert NoNewline(text[i]);
  }

  lemma PlainInsertIff(text: Text, i: nat, c: nat, b: Byte)
    requires Plain(text) && i < |text| && c <= |text[i]|
    ensures Plain(text[i := text[i][..c] + [b] + text[i][c..]]) <==> b != NEWLINE
  {
    assert NoNewline(text[i]);
    var longer := text[i := text[i][..c] + [b] + text[i][c..]];
    assert longer[i][c] == b;
    if b == NEWLINE {
      assert !NoNewline(longer[i]);
    }
  }

  /** Append bytes to one of the lines. */
  method AppendTo(lines: seq<GapBuffer>, ghost text: Text, at: nat, data: seq<Byte>)
    requires Holds(lines, text) && at < |lines|
    modifies lines
    ensures Holds(lines, text[at := text[at] + data])
  {
    hide Outside;
    var len := lines[at].ContentLen();
    lines[at].InsertStr(len, data);
    assert text[at][..|text[at]|] == text[at];
  }

  class Editor {
    var lines: seq<GapBuffer>
    var line: nat
    var col: nat
    var modified: bool
    /** A file name is set. */
    var named: bool

    /** The text of each line. */
    ghost var text: Text

    /** The lines are distinct buffers that hold the text, newlines only between them. */
    ghost predicate Valid()
      reads this, lines
    {
      |lines| > 0 && Holds(lines, text) && Plain(text)
    }

    /** The cursor is on a line, at a byte of it or at its end. */
    ghost predicate CursorOk()
      reads this
    {
      line < |text| && col <= |text[line]|
    }

    ghost function Document(): seq<Byte>
      reads this
    {
      Join(text)
    }

    ghost function At(): nat
      reads this
      requires CursorOk()
    {
      Offset(text, line, col)
    }

    /** new: one empty line. */
    constructor ()
      ensures Valid() && CursorOk() && Document() == [] && At() == 0 && !modified && !named
      ensures fresh(lines)
    {
      var l := new GapBuffer.Empty();
      lines := [l];
      line, col, modified, named := 0, 0, false, false;
      text := [[]];
    }

    // -------------------------------------------------------------------------
    // Files

    /** load: split the file at newlines. A missing file gives one empty line but leaves
        the cursor where it was. */
    method Load(file: Option<seq<Byte>>)
      modifies this
      ensures Valid() && !modified && named && fresh(lines)
      ensures file.Some? ==> text == Split(file.value) && Document() == file.value && CursorOk() && At() == 0
      ensures file.None? ==> text == [[]] && line == old(line) && col == old(col)
      ensures file.None? ==> (CursorOk() <==> old(line) == 0 && old(col) == 0)
    {
      named := true;
      if file.None? {
        var l := new GapBuffer.Empty();
        lines, text := [l], [[]];
        modified := false;
        return;
      }
      hide Join, Split, Pre, Post, Outside;
      lines, text := LoadLines(file.value);
      line, col := 0, 0;
      modified := false;
      JoinSplit(file.value);
      NothingBefore(text);
    }

    /** The loop of save: the bytes to be written. */
    method ToBytes() returns (data: seq<Byte>)
      requires Valid()
      ensures data == Document()
    {
      data := [];
      for i := 0 to |lines|
        invariant data == if i < |lines| then Pre(text[..i]) else Document()
      {
        var bytes := lines[i].ToBytes();
        data := data + bytes;
        if i < |lines| - 1 {
          data := data + [NEWLINE];
          assert text[..i + 1] == text[..i] + [text[i]];
          PreSnoc(text[..i], text[i]);
        } else {
          LineAround(text, i);
          assert Post(text[i + 1..]) == [];
        }
      }
    }

    /** save: the document goes to the file if the editor has a file name; `written` says
        whether the file system accepts it. */
    method Save(written: bool) returns (ok: bool, data: Option<seq<Byte>>)
      requires Valid()
      modifies this`modified
      ensures Valid() && data == if named then Some(Document()) else None
      ensures ok == (named && written) && modified == (old(modified) && !ok)
    {
      if !named {
        return false, None;
      }
      var bytes := ToBytes();
      if written {
        modified := false;
      }
      return written, Some(bytes);
    }

    // -------------------------------------------------------------------------
    // Edits

    /** insert_char: one byte enters the document at the cursor. A newline byte enters it
        too, but inside a line: the lines are then no longer the split of the document. */
    method InsertChar(ch: Byte)
      requires Valid() && CursorOk()
      modifies this, lines
      ensures |lines| > 0 && Holds(lines, text) && CursorOk() && modified
      ensures Valid() <==> ch != NEWLINE
      ensures old(At()) <= |old(Document())|
      ensures Document() == InsertAt(old(Document()), old(At()), ch) && At() == old(At()) + 1
      ensures lines == old(lines)
    {
      hide Join, Pre, Post, Outside, Offset, Holds, Plain;
      HoldsLines(lines, text);
      InsertInLine(text, line, col, ch);
      PlainInsertIff(text, line, col, ch);
      InsertIn(lines, text, line, col, ch);
      text := text[line := text[line][..col] + [ch] + text[line][col..]];
      col := col + 1;
      modified := true;
    }

    /** insert_newline: a newline enters the document at the cursor. */
    method InsertNewline()
      requires Valid() && CursorOk()
      modifies this, lines
      ensures Valid() && CursorOk() && modified
      ensures old(At()) <= |old(Document())|
      ensures Document() == InsertAt(old(Document()), old(At()), NEWLINE) && At() == old(At()) + 1
      ensures forall l :: l in lines && l !in old(lines) ==> fresh(l)
    {
      hide Join, Pre, Post, Outside, Offset, Plain, SplitText, Holds;
      HoldsLines(lines, text);
      SplitLine(text, line, col);
      PlainSplit(text, line, col);
      var rest := CutLine();
      var l := new GapBuffer(rest);
      ghost var cut := text[line := text[line][..col]];
      HoldsInserted(lines, cut, line + 1, l, rest);
      SplitTextIsInsert(text, line, col);
      text := SplitText(text, line, col);
      line := line + 1;
      lines := lines[..line] + [l] + lines[line..];
      col := 0;
      modified := true;
    }

    /** Truncate the current line at the cursor and return what followed. */
    method CutLine() returns (rest: seq<Byte>)
      requires Valid() && CursorOk()
      modifies lines
      ensures Holds(lines, text[line := text[line][..col]]) && rest == text[line][col..]
    {
      hide Outside, Plain;
      var bytes := lines[line].ToBytes();
      rest := bytes[col..];
      var len := lines[line].ContentLen();
      lines[line].DeleteRange(col, len);
    }

    /** backspace: the byte before the cursor leaves the document; at its start nothing
        happens. */
    method Backspace()
      requires Valid() && CursorOk()
      modifies this, lines
      ensures Valid() && CursorOk()
      ensures old(At()) == 0 ==> Document() == old(Document()) && At() == 0 && modified == old(modified)
      ensures old(At()) > 0 ==>
                && old(At()) <= |old(Document())| && modified
                && Document() == RemoveAt(old(Document()), old(At()) - 1) && At() == old(At()) - 1
      ensures forall l :: l in lines ==> l in old(lines)
    {
      hide Join, Pre, Post, Outside, Plain, Holds;
      NothingBefore(text);
      if col > 0 {
        DeleteBefore();
      } else if line > 0 {
        JoinWithPrevious();
      }
    }

    method DeleteBefore()
      requires Valid() && CursorOk() && col > 0
      modifies this, lines
      ensures Valid() && CursorOk() && modified && 0 < old(At()) <= |old(Document())|
      ensures Document() == RemoveAt(old(Document()), old(At()) - 1) && At() == old(At()) - 1
      ensures forall l :: l in lines ==> l in old(lines)
    {
      hide Join, Pre, Post, Outside, Holds, Plain;
      HoldsLines(lines, text);
      DeleteInLine(text, line, col - 1);
      PlainDelete(text, line, col - 1);
      col := col - 1;
      DeleteIn(lines, text, line, col);
      text := text[line := text[line][..col] + text[line][col + 1..]];
      modified := true;
    }

    method JoinWithPrevious()
      requires Valid() && CursorOk() && col == 0 && line > 0
      modifies this, lines
      ensures Valid() && CursorOk() && modified && 0 < old(At()) <= |old(Document())|
      ensures Document() == RemoveAt(old(Document()), old(At()) - 1) && At() == old(At()) - 1
      ensures forall l :: l in lines ==> l in old(lines)
    {
      hide Join, Pre, Post, Outside, Offset, Plain, JoinText, Holds;
      HoldsLines(lines, text);
      JoinLines(text, line);
      PlainJoin(text, line);
      ghost var t, i := text, line;
      var current := lines[line].ToBytes();
      HoldsRemoved(lines, text, line);
      lines := lines[..line] + lines[line + 1..];
      ghost var rest := t[..i] + t[i + 1..];
      HoldsLines(lines, rest);
      line := line - 1;
      col := lines[line].ContentLen();
      AppendTo(lines, rest, line, current);
      JoinTextIsRemove(t, i);
      text := JoinText(t, i);
      modified := true;
    }

    /** delete_char: the byte under the cursor leaves the document; at the end of a line
        nothing happens, not even on the newline. */
    method DeleteChar()
      requires Valid() && CursorOk()
      modifies this, lines
      ensures Valid() && CursorOk() && At() == old(At()) && old(At()) <= |old(Document())|
      ensures var d, at := old(Document()), old(At());
              Document() == if at < |d| && d[at] != NEWLINE then RemoveAt(d, at) else d
    {
      hide Join, Pre, Post, Outside, Offset, Holds;
      HoldsLines(lines, text);
      OffsetInDocument(text, line, col);
      EndOfLine(text, line);
      if col < lines[line].ContentLen() {
        DeleteInLine(text, line, col);
        PlainDelete(text, line, col);
        assert NoNewline(text[line]);
        DeleteIn(lines, text, line, col);
        text := text[line := text[line][..col] + text[line][col + 1..]];
        modified := true;
      }
    }

    // -------------------------------------------------------------------------
    // Cursor moves

    method MoveLeft()
      requires CursorOk()
      modifies this`col
      ensures CursorOk() && At() == if old(col) > 0 then old(At()) - 1 else old(At())
    {
      col := if col > 0 then col - 1 else 0;
    }

    method MoveRight()
      requires Valid() && CursorOk()
      modifies this`col
      ensures CursorOk() && At() == if old(col) < |text[line]| then old(At()) + 1 else old(At())
    {
      if col < lines[line].ContentLen() {
        col := col + 1;
      }
    }

    method MoveUp()
      requires Valid() && CursorOk()
      modifies this`line, this`col
      ensures CursorOk() && line == (if old(line) > 0 then old(line) - 1 else 0)
      ensures col == if old(line) > 0 then Min(old(col), |text[line]|) else old(col)
    {
      if line > 0 {
        line := line - 1;
        col := Min(col, lines[line].ContentLen());
      }
    }

    method MoveDown()
      requires Valid() && CursorOk()
      modifies this`line, this`col
      ensures CursorOk() && line == Min(old(line) + 1, |text| - 1)
      ensures col == if old(line) + 1 < |text| then Min(old(col), |text[line]|) else old(col)
    {
      if line < |lines| - 1 {
        line := line + 1;
        col := Min(col, lines[line].ContentLen());
      }
    }
  }

  lemma SplitAtNewline(data: seq<Byte>, from: nat, i: nat)
    requires from <= i < |data| && data[i] == NEWLINE && NoNewline(data[from..i])
    ensures Split(data[from..]) == [data[from..i]] + Split(data[i + 1..])
  {
    assert data[from..] == data[from..i] + data[i..];
    SplitPrefix(data[from..i], data[i..]);
    assert data[i..][1..] == data[i + 1..];
    var s := Split(data[i..]);
    assert s == [[]] + Split(data[i + 1..]);
    assert s[0] == [] && s[1..] == Split(data[i + 1..]) && data[from..i] + [] == data[from..i];
  }

  lemma SplitLast(x: seq<Byte>)
    requires NoNewline(x)
    ensures Split(x) == [x]
  {
    SplitPrefix(x, []);
    assert x + [] == x;
  }
}
