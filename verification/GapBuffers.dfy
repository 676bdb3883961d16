/** The gap buffer of kernel/src/apps/editor.rs: a line of text with a gap at the
    last edit, moved by overlapping copies. */
module GapBuffers {
  import opened Common

  function Min(a: nat, b: nat): nat { if a <= b then a else b }

  /** The bytes outside the gap. */
  function Outside(buffer: seq<Byte>, gapStart: nat, gapEnd: nat): seq<Byte>
    requires gapStart <= gapEnd <= |buffer|
  {
    buffer[..gapStart] + buffer[gapEnd..]
  }

  /** The buffer with n bytes at `src` copied to `dst`, as if through a temporary. */
  function Copied(b: seq<Byte>, src: nat, dst: nat, n: nat): (r: seq<Byte>)
    requires src + n <= |b| && dst + n <= |b|
    ensures |r| == |b|
  {
    b[..dst] + b[src..src + n] + b[dst + n..]
  }

  class GapBuffer {
    var buffer: seq<Byte>
    var gapStart: nat
    var gapEnd: nat

    ghost predicate Valid()
      reads this
    {
      gapStart <= gapEnd <= |buffer|
    }

    /** The text of the buffer. */
    ghost function Content(): seq<Byte>
      reads this
      requires Valid()
    {
      Outside(buffer, gapStart, gapEnd)
    }

    /** with_content: the text, then a gap of 1024 bytes. */
    constructor (content: seq<Byte>)
      ensures Valid() && Content() == content
    {
      buffer := content + Zeros(1024);
      gapStart := |content|;
      gapEnd := |content| + 1024;
    }

    /** new: an empty text with a gap of 4096 bytes. */
    constructor Empty()
      ensures Valid() && Content() == []
    {
      buffer := Zeros(4096);
      gapStart := 0;
      gapEnd := 4096;
    }

    function ContentLen(): (n: nat)
      reads this
      requires Valid()
      ensures n == |Content()|
    {
      |buffer| - (gapEnd - gapStart)
    }

    /** The copy that moves the gap left, from the top down because the ranges overlap. */
    method CopyUp(src: nat, dst: nat, n: nat)
      requires src <= dst && dst + n <= |buffer|
      modifies this`buffer
      ensures buffer == Copied(old(buffer), src, dst, n)
    {
      for i := n downto 0
        invariant |buffer| == |old(buffer)|
        invariant forall j :: dst + i <= j < dst + n ==> buffer[j] == old(buffer)[j - dst + src]
        invariant forall j :: 0 <= j < |buffer| && !(dst + i <= j < dst + n) ==> buffer[j] == old(buffer)[j]
      {
        buffer := buffer[dst + i := buffer[src + i]];
      }
    }

    /** The copy that moves the gap right, from the bottom up. */
    method CopyDown(src: nat, dst: nat, n: nat)
      requires dst <= src && src + n <= |buffer|
      modifies this`buffer
      ensures buffer == Copied(old(buffer), src, dst, n)
    {
      for i := 0 to n
        invariant |buffer| == |old(buffer)|
        invariant forall j :: dst <= j < dst + i ==> buffer[j] == old(buffer)[j - dst + src]
        invariant forall j :: 0 <= j < |buffer| && !(dst <= j < dst + i) ==> buffer[j] == old(buffer)[j]
      {
        buffer := buffer[dst + i := buffer[src + i]];
      }
    }

    /** Move the gap to `pos`, or to the end if the text is shorter. */
    method MoveGap(pos: nat)
      requires Valid()
      modifies this
      ensures Valid() && Content() == old(Content())
      ensures gapStart == Min(pos, |Content()|) && gapEnd - gapStart == old(gapEnd - gapStart)
    {
      hide Copied, Outside;
      var p := Min(pos, ContentLen());
      if p < gapStart {
        var moveSize := gapStart - p;
        CopyUp(p, gapEnd - moveSize, moveSize);
        MovedLeft(old(buffer), gapStart, gapEnd, p);
        gapEnd := gapEnd - moveSize;
        gapStart := p;
      } else if p > gapStart {
        var moveSize := p - gapStart;
        CopyDown(gapEnd, gapStart, moveSize);
        MovedRight(old(buffer), gapStart, gapEnd, p);
        gapStart := gapStart + moveSize;
        gapEnd := gapEnd + moveSize;
      }
    }

    /** Make the gap at least `needed` bytes, by 1024 or more at a time. */
    method EnsureGap(needed: nat)
      requires Valid()
      modifies this
      ensures Valid() && Content() == old(Content()) && gapStart == old(gapStart) && gapEnd - gapStart >= needed
    {
      if gapEnd - gapStart >= needed {
        return;
      }
      hide Copied, Outside;
      var oldLen := |buffer|;
      var lack := needed - (gapEnd - gapStart);
      var growBy := if lack >= 1024 then lack else 1024;
      buffer := buffer + Zeros(growBy);
      var afterGap := oldLen - gapEnd;
      var newLen := |buffer|;
      Grown(old(buffer), Zeros(growBy), gapStart, gapEnd);
      if afterGap > 0 {
        CopyUp(gapEnd, newLen - afterGap, afterGap);
      } else {
        CopiedNothing(buffer, gapEnd, gapEnd + growBy);
      }
      gapEnd := newLen - afterGap;
    }

    /** Insert one byte at `pos`. */
    method Insert(pos: nat, ch: Byte)
      requires Valid()
      modifies this
      ensures Valid()
      ensures var t := old(Content()); var p := Min(pos, |t|); Content() == t[..p] + [ch] + t[p..]
    {
      MoveGap(pos);
      EnsureGap(1);
      Overwritten(buffer, gapStart, gapEnd, [ch]);
      buffer := buffer[gapStart := ch];
      gapStart := gapStart + 1;
    }

    /** Insert a string at `pos`. */
    method InsertStr(pos: nat, data: seq<Byte>)
      requires Valid()
      modifies this
      ensures Valid()
      ensures var t := old(Content()); var p := Min(pos, |t|); Content() == t[..p] + data + t[p..]
    {
      MoveGap(pos);
      EnsureGap(|data|);
      Overwritten(buffer, gapStart, gapEnd, data);
      buffer := buffer[..gapStart] + data + buffer[gapStart + |data|..];
      gapStart := gapStart + |data|;
    }

    /** Delete the byte at `pos`, if there is one. */
    method Delete(pos: nat)
      requires Valid()
      modifies this
      ensures Valid()
      ensures var t := old(Content()); Content() == if pos < |t| then t[..pos] + t[pos + 1..] else t
    {
      if pos >= ContentLen() {
        return;
      }
      MoveGap(pos);
      gapEnd := gapEnd + 1;
    }

    /** Delete the bytes from..end that exist. */
    method DeleteRange(from: nat, end: nat)
      requires Valid()
      modifies this
      ensures Valid()
      ensures var t := old(Content()); var e := Min(end, |t|);
              Content() == if from < e then t[..from] + t[e..] else t
    {
      var e := Min(end, ContentLen());
      if from >= e {
        return;
      }
      MoveGap(from);
      gapEnd := gapEnd + (e - from);
    }

    /** The byte at `pos`. */
    method Get(pos: nat) returns (r: Option<Byte>)
      requires Valid()
      ensures r == if pos < |Content()| then Some(Content()[pos]) else None
    {
      if pos >= ContentLen() {
        return None;
      }
      var idx := if pos < gapStart then pos else pos + (gapEnd - gapStart);
      return Some(buffer[idx]);
    }

    method ToBytes() returns (r: seq<Byte>)
      requires Valid()
      ensures r == Content()
    {
      r := buffer[..gapStart] + buffer[gapEnd..];
    }
  }

  lemma CopiedNothing(b: seq<Byte>, src: nat, dst: nat)
    requires src <= |b| && dst <= |b|
    ensures Copied(b, src, dst, 0) == b
  {
  }

  lemma MovedLeft(b: seq<Byte>, gs: nat, ge: nat, p: nat)
    requires p <= gs <= ge <= |b|
    ensures var dst := ge - (gs - p); Outside(Copied(b, p, dst, gs - p), p, dst) == Outside(b, gs, ge)
  {
  }

  lemma MovedRight(b: seq<Byte>, gs: nat, ge: nat, p: nat)
    requires gs <= ge <= |b| && gs <= p && ge + (p - gs) <= |b|
    ensures Outside(Copied(b, ge, gs, p - gs), p, ge + (p - gs)) == Outside(b, gs, ge)
  {
  }

  lemma Grown(b: seq<Byte>, pad: seq<Byte>, gs: nat, ge: nat)
    requires gs <= ge <= |b|
    ensures Outside(Copied(b + pad, ge, ge + |pad|, |b| - ge), gs, ge + |pad|) == Outside(b, gs, ge)
  {
  }

  /** Filling the front of the gap inserts there. */
  lemma Overwritten(b: seq<Byte>, gs: nat, ge: nat, data: seq<Byte>)
    requires gs + |data| <= ge <= |b|
    ensures var t := Outside(b, gs, ge);
            Outside(b[..gs] + data + b[gs + |data|..], gs + |data|, ge) == t[..gs] + data + t[gs..]
  {
  }
}
