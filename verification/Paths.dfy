/** Path normalisation of kernel/src/fs/vfs.rs. A `char` stands for one byte of UTF-8. */
module Paths {

  /** str::split: the pieces between slashes, at least one. */
  function Split(p: string): (r: seq<string>)
    ensures |r| > 0
  {
    if p == [] then [[]] else Extend(Split(p[..|p| - 1]), p[|p| - 1])
  }

  /** The pieces after one more character. */
  function Extend(pieces: seq<string>, c: char): (r: seq<string>)
    requires |pieces| > 0
    ensures |r| > 0
  {
    if c == '/' then pieces + [[]] else pieces[..|pieces| - 1] + [pieces[|pieces| - 1] + [c]]
  }

  /** The stack after one more piece. */
  function Push(stack: seq<string>, piece: string): seq<string> {
    if piece == "" || piece == "." then stack
    else if piece == ".." then (if stack == [] then [] else stack[..|stack| - 1])
    else stack + [piece]
  }

  function Reduce(pieces: seq<string>): seq<string> {
    if pieces == [] then [] else Push(Reduce(pieces[..|pieces| - 1]), pieces[|pieces| - 1])
  }

  function Flat(cs: seq<string>): string {
    if cs == [] then "" else Flat(cs[..|cs| - 1]) + "/" + cs[|cs| - 1]
  }

  function Render(cs: seq<string>): string {
    if cs == [] then "/" else Flat(cs)
  }

  function Components(p: string): seq<string> { Reduce(Split(p)) }

  function Normalize(p: string): string { Render(Components(p)) }

  /** A component of a normalised path. */
  predicate Plain(c: string) { c != "" && c != "." && c != ".." && '/' !in c }

  ghost predicate AllPlain(cs: seq<string>) { forall i :: 0 <= i < |cs| ==> Plain(cs[i]) }

  method NormalizePath(path: string) returns (r: string)
    ensures r == Normalize(path)
  {
    if path == "" || path == "/" {
      SplitSlash();
      return "/";
    }
    var pieces := Split(path);
    var stack: seq<string> := [];
    for i := 0 to |pieces|
      invariant stack == Reduce(pieces[..i])
    {
      assert pieces[..i + 1][..i] == pieces[..i];
      var piece := pieces[i];
      if piece == "" || piece == "." {
      } else if piece == ".." {
        if stack != [] {
          stack := stack[..|stack| - 1];
        }
      } else {
        stack := stack + [piece];
      }
    }
    assert pieces[..|pieces|] == pieces;
    if stack == [] {
      return "/";
    }
    r := "";
    for i := 0 to |stack|
      invariant r == Flat(stack[..i])
    {
      assert stack[..i + 1][..i] == stack[..i];
      r := r + "/" + stack[i];
    }
    assert stack[..|stack|] == stack;
  }

  lemma SplitSlash()
    ensures Components("") == [] && Components("/") == []
  {
    assert "/"[..0] == "";
    var two: seq<string> := ["", ""];
    assert Split("/") == two;
    assert two[..1] == [""];
  }

  // ---------------------------------------------------------------------------
  // Components of a rendered path

  lemma {:induction false} SplitAround(x: string, y: string)
    ensures Split(x + "/" + y) == Split(x) + Split(y)
  {
    hide Extend;
    var p := x + "/" + y;
    if y == "" {
      assert p[..|p| - 1] == x;
      ExtendSlash(Split(x));
    } else {
      var z := y[..|y| - 1];
      SplitAround(x, z);
      assert p[..|p| - 1] == x + "/" + z;
      assert p[|p| - 1] == y[|y| - 1];
      ExtendSum(Split(x), Split(z), y[|y| - 1]);
    }
  }

  lemma ExtendSlash(a: seq<string>)
    requires a != []
    ensures Extend(a, '/') == a + [""]
  {
  }

  lemma ExtendSum(a: seq<string>, b: seq<string>, c: char)
    requires b != []
    ensures Extend(a + b, c) == a + Extend(b, c)
  {
    assert (a + b)[..|a + b| - 1] == a + b[..|b| - 1];
  }

  lemma SplitWhole(c: string)
    requires '/' !in c
    ensures Split(c) == [c]
  {
    hide Split;
    OnePiece(c);
  }

  lemma {:induction false} OnePiece(c: string)
    requires '/' !in c
    ensures |Split(c)| == 1 && Split(c)[0] == c
  {
    hide Extend;
    if |c| > 0 {
      NoSlashBefore(c);
      SplitLast(c);
      hide Split;
      var d, last := c[..|c| - 1], c[|c| - 1];
      OnePiece(d);
      ExtendOne(Split(d), last);
      assert c == d + [last];
    }
  }

  lemma NoSlashBefore(c: string)
    requires '/' !in c && c != ""
    ensures '/' !in c[..|c| - 1] && c[|c| - 1] != '/'
  {
  }

  lemma SplitLast(c: string)
    requires c != ""
    ensures Split(c) == Extend(Split(c[..|c| - 1]), c[|c| - 1])
  {
  }

  lemma ExtendOne(pieces: seq<string>, c: char)
    requires |pieces| == 1 && c != '/'
    ensures |Extend(pieces, c)| == 1 && Extend(pieces, c)[0] == pieces[0] + [c]
  {
  }

  lemma {:induction false} SplitFlat(cs: seq<string>)
    requires AllPlain(cs)
    ensures Split(Flat(cs)) == [""] + cs
  {
    if cs != [] {
      var init, c := cs[..|cs| - 1], cs[|cs| - 1];
      SplitFlat(init);
      SplitAround(Flat(init), c);
      SplitWhole(c);
      assert cs == init + [c];
    }
  }

  lemma {:induction false} ReducePlain(cs: seq<string>)
    requires AllPlain(cs)
    ensures Reduce([""] + cs) == cs
  {
    var all := [""] + cs;
    if cs == [] {
      assert all[..0] == [];
    } else {
      ReducePlain(cs[..|cs| - 1]);
      assert all[..|all| - 1] == [""] + cs[..|cs| - 1];
    }
  }

  /** Components undoes Render. */
  lemma ComponentsOfRender(cs: seq<string>)
    requires AllPlain(cs)
    ensures Components(Render(cs)) == cs
  {
    if cs == [] {
      SplitSlash();
    } else {
      SplitFlat(cs);
      ReducePlain(cs);
    }
  }

  lemma {:induction false} SplitHasNoSlash(p: string, i: nat)
    requires i < |Split(p)|
    ensures '/' !in Split(p)[i]
  {
    if p != "" {
      var q := p[..|p| - 1];
      if i < |Split(q)| {
        SplitHasNoSlash(q, i);
      }
    }
  }

  lemma {:induction false} ReduceIsPlain(pieces: seq<string>)
    requires forall i :: 0 <= i < |pieces| ==> '/' !in pieces[i]
    ensures AllPlain(Reduce(pieces))
  {
    if pieces != [] {
      ReduceIsPlain(pieces[..|pieces| - 1]);
    }
  }

  lemma ComponentsArePlain(p: string)
    ensures AllPlain(Components(p))
  {
    forall i | 0 <= i < |Split(p)|
      ensures '/' !in Split(p)[i]
    {
      SplitHasNoSlash(p, i);
    }
    ReduceIsPlain(Split(p));
  }

  /** A normalised path has the components of the path, and is its own normal form. */
  lemma NormalizeIdempotent(p: string)
    ensures Components(Normalize(p)) == Components(p)
    ensures Normalize(Normalize(p)) == Normalize(p)
  {
    ComponentsArePlain(p);
    ComponentsOfRender(Components(p));
  }

  // ---------------------------------------------------------------------------
  // What each kind of piece does to a path

  lemma AppendPiece(p: string, c: string)
    requires '/' !in c
    ensures Components(p + "/" + c) == Push(Components(p), c)
  {
    SplitAround(p, c);
    SplitWhole(c);
    assert (Split(p) + [c])[..|Split(p)|] == Split(p);
  }

  /** A name is appended. */
  lemma AppendName(p: string, c: string)
    requires Plain(c)
    ensures Components(p + "/" + c) == Components(p) + [c]
  {
    AppendPiece(p, c);
  }

  /** ".." takes the last component away, and stays at the root. */
  lemma AppendParent(p: string)
    ensures var cs := Components(p);
            Components(p + "/..") == if cs == [] then [] else cs[..|cs| - 1]
  {
    AppendPiece(p, "..");
    assert p + "/.." == p + "/" + "..";
  }

  /** "." and a further slash change nothing. */
  lemma AppendNothing(p: string)
    ensures Components(p + "/.") == Components(p) && Components(p + "/") == Components(p)
  {
    AppendPiece(p, ".");
    AppendPiece(p, "");
    assert p + "/." == p + "/" + "." && p + "/" == p + "/" + "";
  }

  /** A path need not start with a slash. */
  lemma {:induction false} LeadingSlash(p: string)
    ensures Components("/" + p) == Components(p)
  {
    SplitAround("", p);
    assert "/" + p == "" + "/" + p && Split("") == [""];
    LeadingEmpty(Split(p));
  }

  lemma {:induction false} LeadingEmpty(pieces: seq<string>)
    ensures Reduce([""] + pieces) == Reduce(pieces)
  {
    var all := [""] + pieces;
    if pieces == [] {
      assert all[..0] == [];
    } else {
      LeadingEmpty(pieces[..|pieces| - 1]);
      assert all[..|all| - 1] == [""] + pieces[..|pieces| - 1];
    }
  }

  // ---------------------------------------------------------------------------
  // Prefixes

  lemma {:induction false} FlatOfSum(a: seq<string>, b: seq<string>)
    ensures Flat(a + b) == Flat(a) + Flat(b)
  {
    if b == [] {
      assert a + b == a;
    } else {
      var init := b[..|b| - 1];
      FlatOfSum(a, init);
      assert (a + b)[..|a + b| - 1] == a + init;
      assert Flat(a) + Flat(init) + "/" + b[|b| - 1] == Flat(a) + (Flat(init) + "/" + b[|b| - 1]);
    }
  }

  /** A rest of the path begins with the slash of its first component. */
  lemma {:induction false} FlatStarts(cs: seq<string>)
    requires cs != []
    ensures Flat(cs) != "" && Flat(cs)[0] == '/'
  {
    if |cs| > 1 {
      FlatStarts(cs[..|cs| - 1]);
    }
  }

  /** The test of resolve_path: equal, or starting with the mount path and a slash. */
  predicate Under(p: string, mount: string) { p == mount || mount + "/" <= p }

  /** On normalised paths the test is a prefix test on components, except that the root
      mount matches only the root. */
  lemma UnderIsPrefix(cs: seq<string>, ds: seq<string>)
    requires AllPlain(cs) && AllPlain(ds)
    ensures Under(Render(cs), Render(ds)) <==> cs == ds || (ds != [] && ds <= cs)
  {
    if Under(Render(cs), Render(ds)) && cs != ds {
      ComponentsOfRender(cs);
      ComponentsOfRender(ds);
      UnderGivesPrefix(cs, ds);
    }
    if ds != [] && ds <= cs && ds != cs {
      var rest := cs[|ds|..];
      assert cs == ds + rest;
      FlatOfSum(ds, rest);
      FlatStarts(rest);
      var p := Render(cs);
      assert p[..|Flat(ds)| + 1] == Flat(ds) + "/";
    }
  }

  /** The pieces of a rendered path: an empty one, then the components. */
  lemma SplitRender(cs: seq<string>)
    requires AllPlain(cs)
    ensures Split(Render(cs)) == [""] + if cs == [] then [""] else cs
  {
    if cs == [] {
      SplitAround("", "");
      assert "/" == "" + "/" + "";
    } else {
      SplitFlat(cs);
    }
  }

  lemma UnderGivesPrefix(cs: seq<string>, ds: seq<string>)
    requires AllPlain(cs) && AllPlain(ds) && Render(ds) + "/" <= Render(cs)
    ensures ds != [] && ds <= cs
  {
    hide Split, Render;
    var p, m := Render(cs), Render(ds);
    var y := p[|m| + 1..];
    assert p == m + "/" + y;
    SplitAround(m, y);
    SplitRender(cs);
    SplitRender(ds);
    PrefixOfPieces(cs, ds, Split(y));
  }

  lemma PrefixOfPieces(cs: seq<string>, ds: seq<string>, rest: seq<string>)
    requires AllPlain(cs) && rest != []
    requires ([""] + if cs == [] then [""] else cs) == ([""] + if ds == [] then [""] else ds) + rest
    ensures ds != [] && ds <= cs
  {
    var left, right := if cs == [] then [""] else cs, if ds == [] then [""] else ds;
    assert left == ([""] + left)[1..];
    assert right + rest == ([""] + right + rest)[1..];
    assert left == right + rest;
    assert |cs| > 1;
    assert right[0] == cs[0];
  }
}
