/**
 * The tokenizer of `compile` (garnet.js:65-100): the `while (true)` loop that
 * splits a template into `parts`, alternately raw text and the code between
 * `<%` and `%>`. `Tokenize` is that loop; `Scan` is the same walk written as
 * a recursive function, the specification the loop is proved against and the
 * subject of the lemmas.
 */
module Tokenizer {
  import opened Wrappers
  import opened Strings

  /** The three `Error`s the loop throws, with the position it reports. */
  datatype SyntaxError =
    | UnexpectedClose(pos: nat)   // a `%>` with no `<%` before it
    | MissingClose                // a `<%` that no `%>` follows
    | UnexpectedOpen(pos: nat)    // a `<%` inside a directive

  predicate OpenAt(t: string, j: int) { PairAt(t, j, '<', '%') }
  predicate CloseAt(t: string, j: int) { PairAt(t, j, '%', '>') }

  /** `t.slice(a, b)` for in-range indices: empty when `a >= b`. */
  function Slice(t: string, a: nat, b: nat): (r: string)
    requires a <= |t| && b <= |t|
    ensures a < b ==> r == t[a..b]
    ensures b <= a ==> r == []
  {
    if a < b then t[a..b] else []
  }

  /** The parts already pushed, in front of what the rest of the walk yields. */
  function Prefixed(done: seq<string>, rest: Result<seq<string>, SyntaxError>): Result<seq<string>, SyntaxError>
  {
    match rest
    case Ok(ps) => Ok(done + ps)
    case Err(e) => Err(e)
  }

  lemma PrefixedAppend(a: seq<string>, b: seq<string>, rest: Result<seq<string>, SyntaxError>)
    ensures Prefixed(a, Prefixed(b, rest)) == Prefixed(a + b, rest)
    ensures Prefixed([], rest) == rest
  {
    if rest.Ok? {
      assert a + (b + rest.value) == (a + b) + rest.value;
      assert [] + rest.value == rest.value;
    }
  }

  /**
   * The walk of the loop from `pos` on, one iteration per call. A reported
   * position lies at or after `pos` and holds the delimiter the message names.
   */
  function Scan(t: string, pos: nat): (r: Result<seq<string>, SyntaxError>)
    requires pos <= |t|
    ensures r.Err? && r.error.UnexpectedClose? ==> pos <= r.error.pos && CloseAt(t, r.error.pos)
    ensures r.Err? && r.error.UnexpectedOpen? ==> pos <= r.error.pos && OpenAt(t, r.error.pos)
    decreases |t| - pos
  {
    var openPos := Find(t, '<', '%', pos);
    var closePos := Find(t, '%', '>', pos);
    if openPos == -1 then
      if closePos == -1 then Ok([t[pos..]])
      else Err(UnexpectedClose(closePos))
    else if closePos == -1 then Err(MissingClose)
    else if closePos < openPos then Err(UnexpectedClose(closePos))
    else
      var nextOpenPos := Find(t, '<', '%', openPos + 2);
      if nextOpenPos != -1 && nextOpenPos < closePos then Err(UnexpectedOpen(nextOpenPos))
      else Prefixed([t[pos..openPos], Slice(t, openPos + 2, closePos)], Scan(t, closePos + 2))
  }

  /**
   * The `while (true)` loop of garnet.js:70-100. Each iteration moves `pos`
   * past the `%>` it consumed, so `pos` strictly increases and the loop ends.
   */
  method Tokenize(t: string) returns (r: Result<seq<string>, SyntaxError>)
    ensures r == Scan(t, 0)
  {
    var parts: seq<string> := [];
    var pos: nat := 0;
    PrefixedAppend([], [], Scan(t, 0));
    while true
      invariant pos <= |t|
      invariant Scan(t, 0) == Prefixed(parts, Scan(t, pos))
      decreases |t| - pos
    {
      ghost var before := parts;
      var openPos := Find(t, '<', '%', pos);
      var closePos := Find(t, '%', '>', pos);
      if openPos == -1 {
        if closePos == -1 {
          parts := parts + [t[pos..]];
          break;
        } else {
          return Err(UnexpectedClose(closePos));
        }
      } else {
        if closePos == -1 {
          return Err(MissingClose);
        } else if closePos < openPos {
          return Err(UnexpectedClose(closePos));
        } else {
          parts := parts + [t[pos..openPos]];
          var nextOpenPos := Find(t, '<', '%', openPos + 2);
          if nextOpenPos != -1 && nextOpenPos < closePos {
            return Err(UnexpectedOpen(nextOpenPos));
          }
        }
      }
      parts := parts + [Slice(t, openPos + 2, closePos)];
      ScanDirective(t, pos, openPos, closePos);
      assert parts == before + [t[pos..openPos], Slice(t, openPos + 2, closePos)];
      PrefixedAppend(before, [t[pos..openPos], Slice(t, openPos + 2, closePos)], Scan(t, closePos + 2));
      pos := closePos + 2;
    }
    r := Ok(parts);
  }

  // ---------------------------------------------------------------------------
  // The shape of a successful split, and the inverse of splitting

  /** Holds neither delimiter. */
  predicate Plain(s: string)
  {
    NoPair(s, '<', '%') && NoPair(s, '%', '>')
  }

  /**
   * Code that can sit between `<%` and `%>` without fusing with them: it does
   * not start with `>` (which would make `<%>`) nor end with `<` (`<%>`).
   */
  predicate Delimitable(c: string)
  {
    c == [] || (c[0] != '>' && c[|c| - 1] != '<')
  }

  /** Text and code alternate, text first and last, and no part holds a delimiter. */
  predicate WellFormed(parts: seq<string>)
  {
    && |parts| % 2 == 1
    && (forall i :: 0 <= i < |parts| ==> Plain(parts[i]))
    && (forall i :: 0 <= i < |parts| && i % 2 == 1 ==> Delimitable(parts[i]))
  }

  /** `parts[0] + "<%" + parts[1] + "%>" + parts[2] + …`. */
  function Join(parts: seq<string>): string
    requires |parts| % 2 == 1
    decreases |parts|
  {
    if |parts| == 1 then parts[0]
    else parts[0] + "<%" + parts[1] + "%>" + Join(parts[2..])
  }

  /** No `<%>`, where one `%` would serve both delimiters. */
  predicate NoOverlap(t: string)
  {
    forall j :: 0 <= j < |t| ==> !(OpenAt(t, j) && CloseAt(t, j + 1))
  }

  lemma WellFormedCons(p: string, c: string, rest: seq<string>)
    requires Plain(p) && Plain(c) && Delimitable(c) && WellFormed(rest)
    ensures WellFormed([p, c] + rest)
  {
    var ps := [p, c] + rest;
    forall i | 2 <= i < |ps| ensures ps[i] == rest[i - 2] { }
  }

  lemma WellFormedUncons(parts: seq<string>)
    requires WellFormed(parts) && |parts| > 1
    ensures Plain(parts[0]) && Plain(parts[1]) && Delimitable(parts[1])
    ensures WellFormed(parts[2..])
  {
    var rest := parts[2..];
    forall i | 0 <= i < |rest| && i % 2 == 1 ensures Delimitable(rest[i]) {
      assert rest[i] == parts[i + 2];
    }
  }

  /** `Find` returns `k` once `k` holds the pair and nothing between `from` and `k` does. */
  lemma FindIs(s: string, a: char, b: char, from: nat, k: int)
    requires from <= k && PairAt(s, k, a, b)
    requires forall j :: from <= j < k ==> !PairAt(s, j, a, b)
    ensures Find(s, a, b, from) == k
  {
    FindFirst(s, a, b, from);
  }

  /** A piece of `t` standing alone holds a pair exactly where `t` does within the piece. */
  lemma PairInPiece(t: string, lo: nat, hi: nat, j: int, a: char, b: char)
    requires lo <= hi <= |t| && lo <= j && j + 1 < hi
    ensures PairAt(t[lo..hi], j - lo, a, b) <==> PairAt(t, j, a, b)
  {
  }

  /** One successful iteration that finds a directive, as the lemmas below use it. */
  lemma ScanStep(t: string, pos: nat) returns (o: nat, c: nat)
    requires pos <= |t| && Scan(t, pos).Ok? && Find(t, '<', '%', pos) != -1
    ensures o == Find(t, '<', '%', pos) && c == Find(t, '%', '>', pos)
    ensures pos <= o < c && c + 2 <= |t| && OpenAt(t, o) && CloseAt(t, c)
    ensures forall j :: pos <= j < o ==> !PairAt(t, j, '<', '%')
    ensures forall j :: pos <= j < c ==> !PairAt(t, j, '%', '>')
    ensures forall j :: o + 2 <= j < c ==> !PairAt(t, j, '<', '%')
    ensures Scan(t, c + 2).Ok?
    ensures Scan(t, pos).value == [t[pos..o], Slice(t, o + 2, c)] + Scan(t, c + 2).value
  {
    o := Find(t, '<', '%', pos);
    c := Find(t, '%', '>', pos);
    FindFirst(t, '<', '%', pos);
    FindFirst(t, '%', '>', pos);
    FindFirst(t, '<', '%', o + 2);
  }

  /** The iteration that finds no directive and pushes the tail. */
  lemma ScanLast(t: string, pos: nat)
    requires pos <= |t| && Scan(t, pos).Ok? && Find(t, '<', '%', pos) == -1
    ensures forall j :: pos <= j ==> !PairAt(t, j, '<', '%') && !PairAt(t, j, '%', '>')
    ensures Scan(t, pos).value == [t[pos..]]
  {
    FindFirst(t, '<', '%', pos);
    FindFirst(t, '%', '>', pos);
  }

  /** A piece of `t` with no delimiter starting inside it, and none straddling its end. */
  lemma PieceIsPlain(t: string, lo: nat, hi: nat)
    requires lo <= hi <= |t|
    requires forall j :: lo <= j < hi ==> !PairAt(t, j, '<', '%') && !PairAt(t, j, '%', '>')
    ensures Plain(t[lo..hi])
  {
    var p := t[lo..hi];
    forall j | 0 <= j < |p| ensures !PairAt(p, j, '<', '%') && !PairAt(p, j, '%', '>') {
      if j + 1 < |p| {
        PairInPiece(t, lo, hi, lo + j, '<', '%');
        PairInPiece(t, lo, hi, lo + j, '%', '>');
      }
    }
  }

  /** The code of a directive the loop accepts holds no delimiter and does not fuse with its own. */
  lemma DirectiveCodeWellFormed(t: string, pos: nat, o: nat, c: nat)
    requires pos <= o < c && c + 2 <= |t| && OpenAt(t, o) && CloseAt(t, c)
    requires forall j :: pos <= j < c ==> !PairAt(t, j, '%', '>')
    requires forall j :: o + 2 <= j < c ==> !PairAt(t, j, '<', '%')
    ensures Plain(Slice(t, o + 2, c)) && Delimitable(Slice(t, o + 2, c))
  {
    var code := Slice(t, o + 2, c);
    if o + 2 < c {
      assert code == t[o + 2..c];
      PieceIsPlain(t, o + 2, c);
      assert code[0] == t[o + 2] && code[|code| - 1] == t[c - 1];
      assert !PairAt(t, o + 1, '%', '>');
      assert !PairAt(t, c - 1, '<', '%');
    }
  }

  /** A successful split is well formed, whatever the template. */
  lemma {:induction false} ScanWellFormed(t: string, pos: nat)
    requires pos <= |t| && Scan(t, pos).Ok?
    ensures WellFormed(Scan(t, pos).value)
    decreases |t| - pos
  {
    if Find(t, '<', '%', pos) == -1 {
      ScanLast(t, pos);
      PieceIsPlain(t, pos, |t|);
      assert t[pos..|t|] == t[pos..];
      assert WellFormed([t[pos..]]);
    } else {
      var o, c := ScanStep(t, pos);
      ScanWellFormed(t, c + 2);
      PieceIsPlain(t, pos, o);
      DirectiveCodeWellFormed(t, pos, o, c);
      WellFormedCons(t[pos..o], Slice(t, o + 2, c), Scan(t, c + 2).value);
    }
  }

  /** A template cut around a directive whose `<%` is at `o` and whose `%>` is at `c`. */
  lemma Layout(t: string, pos: nat, o: nat, c: nat)
    requires pos <= o && o + 2 <= c && c + 2 <= |t| && OpenAt(t, o) && CloseAt(t, c)
    ensures t[pos..] == t[pos..o] + "<%" + t[o + 2..c] + "%>" + t[c + 2..]
  {
    assert t[o..o + 2] == "<%" && t[c..c + 2] == "%>";
    assert t[pos..] == t[pos..o] + t[o..o + 2] + t[o + 2..c] + t[c..c + 2] + t[c + 2..];
  }

  /** The converse of `Layout`: where the pieces of such a template sit. */
  lemma Unlayout(t: string, pos: nat, p: string, code: string, tail: string)
    requires pos <= |t| && t[pos..] == p + "<%" + code + "%>" + tail
    ensures pos + |p| + |code| + 4 <= |t|
    ensures OpenAt(t, pos + |p|) && CloseAt(t, pos + |p| + 2 + |code|)
    ensures t[pos..pos + |p|] == p
    ensures t[pos + |p| + 2..pos + |p| + 2 + |code|] == code
    ensures t[pos + |p| + 4 + |code|..] == tail
  {
    var u := t[pos..];
    var o := pos + |p|;
    var c := o + 2 + |code|;
    assert t[o] == u[|p|] == '<' && t[o + 1] == u[|p| + 1] == '%';
    assert t[c] == u[c - pos] == '%' && t[c + 1] == u[c - pos + 1] == '>';
    assert t[pos..o] == u[..|p|] == p;
    assert t[o + 2..c] == u[|p| + 2..c - pos] == code;
    assert t[c + 2..] == u[c + 2 - pos..] == tail;
  }

  /** No delimiter starts inside a plain piece of `t` without also ending inside it. */
  lemma PlainPieceHasNone(t: string, lo: nat, hi: nat)
    requires lo <= hi <= |t| && Plain(t[lo..hi])
    ensures forall j :: lo <= j && j + 1 < hi ==> !PairAt(t, j, '<', '%') && !PairAt(t, j, '%', '>')
  {
    forall j | lo <= j && j + 1 < hi ensures !PairAt(t, j, '<', '%') && !PairAt(t, j, '%', '>') {
      PairInPiece(t, lo, hi, j, '<', '%');
      PairInPiece(t, lo, hi, j, '%', '>');
    }
  }

  /** The iteration at `pos` when no delimiter lies ahead: the tail is the last part. */
  lemma ScanNone(t: string, pos: nat)
    requires pos <= |t|
    requires forall j :: pos <= j ==> !PairAt(t, j, '<', '%') && !PairAt(t, j, '%', '>')
    ensures Scan(t, pos) == Ok([t[pos..]])
  {
  }

  /** A plain tail is taken whole as the last part. */
  lemma ScanPlain(t: string, pos: nat)
    requires pos <= |t| && Plain(t[pos..])
    ensures Scan(t, pos) == Ok([t[pos..]])
  {
    assert t[pos..|t|] == t[pos..];
    PlainPieceHasNone(t, pos, |t|);
    ScanNone(t, pos);
  }

  /** The iteration at `pos` that meets the directive found at `o` .. `c`. */
  lemma ScanDirective(t: string, pos: nat, o: nat, c: nat)
    requires pos <= o < c && c + 2 <= |t|
    requires Find(t, '<', '%', pos) == o && Find(t, '%', '>', pos) == c
    requires Find(t, '<', '%', o + 2) == -1 || Find(t, '<', '%', o + 2) >= c
    ensures Scan(t, pos) == Prefixed([t[pos..o], Slice(t, o + 2, c)], Scan(t, c + 2))
  {
  }

  /** Plain text then a directive with delimitable code: the loop finds exactly that directive. */
  lemma DirectiveFound(t: string, pos: nat, o: nat, c: nat)
    requires pos <= o && o + 2 <= c && c + 2 <= |t| && OpenAt(t, o) && CloseAt(t, c)
    requires Plain(t[pos..o]) && Plain(t[o + 2..c]) && Delimitable(t[o + 2..c])
    ensures Find(t, '<', '%', pos) == o && Find(t, '%', '>', pos) == c
    ensures Find(t, '<', '%', o + 2) == -1 || Find(t, '<', '%', o + 2) >= c
  {
    PlainPieceHasNone(t, pos, o);
    PlainPieceHasNone(t, o + 2, c);
    assert o + 2 < c ==> t[o + 2] != '>' && t[c - 1] != '<' by {
      if o + 2 < c {
        assert t[o + 2..c][0] == t[o + 2];
        assert t[o + 2..c][c - o - 3] == t[c - 1];
      }
    }
    FindIs(t, '<', '%', pos, o);
    FindIs(t, '%', '>', pos, c);
    FindFirst(t, '<', '%', o + 2);
  }

  /** Joining the text before a directive, its code and parts that rebuild the rest rebuilds the whole. */
  lemma JoinAround(t: string, pos: nat, o: nat, c: nat, rest: seq<string>)
    requires pos <= o && o + 2 <= c && c + 2 <= |t| && OpenAt(t, o) && CloseAt(t, c)
    requires |rest| % 2 == 1 && Join(rest) == t[c + 2..]
    ensures |[t[pos..o], t[o + 2..c]] + rest| % 2 == 1
    ensures Join([t[pos..o], t[o + 2..c]] + rest) == t[pos..]
  {
    Layout(t, pos, o, c);
    var parts := [t[pos..o], t[o + 2..c]] + rest;
    assert parts[2..] == rest;
  }

  /** Without `<%>`, joining the parts of a successful split gives back the template. */
  lemma {:induction false} ScanJoin(t: string, pos: nat)
    requires pos <= |t| && NoOverlap(t) && Scan(t, pos).Ok?
    ensures |Scan(t, pos).value| % 2 == 1 && Join(Scan(t, pos).value) == t[pos..]
    decreases |t| - pos
  {
    if Find(t, '<', '%', pos) == -1 {
      ScanLast(t, pos);
    } else {
      var o, c := ScanStep(t, pos);
      ScanJoin(t, c + 2);
      assert c != o + 1;
      assert Slice(t, o + 2, c) == t[o + 2..c];
      JoinAround(t, pos, o, c, Scan(t, c + 2).value);
    }
  }

  /** Splitting the join of well-formed parts gives those parts back. */
  lemma {:induction false} JoinScan(t: string, pos: nat, parts: seq<string>)
    requires pos <= |t| && WellFormed(parts) && t[pos..] == Join(parts)
    ensures Scan(t, pos) == Ok(parts)
    decreases |parts|
  {
    if |parts| == 1 {
      JoinedText(t, pos, parts);
    } else {
      var c := JoinedDirective(t, pos, parts);
      JoinScan(t, c + 2, parts[2..]);
      PrefixedCons(parts, Scan(t, c + 2));
    }
  }

  lemma PrefixedCons(parts: seq<string>, r: Result<seq<string>, SyntaxError>)
    requires |parts| >= 2 && r == Ok(parts[2..])
    ensures Prefixed([parts[0], parts[1]], r) == Ok(parts)
  {
    assert [parts[0], parts[1]] + parts[2..] == parts;
  }

  /** A single well-formed part is read back whole. */
  lemma JoinedText(t: string, pos: nat, parts: seq<string>)
    requires pos <= |t| && WellFormed(parts) && |parts| == 1 && t[pos..] == Join(parts)
    ensures Scan(t, pos) == Ok(parts)
  {
    assert Plain(parts[0]);
    ScanPlain(t, pos);
    assert parts == [t[pos..]];
  }

  /** The first iteration over the join of well-formed parts reads back the first text and code. */
  lemma JoinedDirective(t: string, pos: nat, parts: seq<string>) returns (c: nat)
    requires pos <= |t| && WellFormed(parts) && |parts| > 1 && t[pos..] == Join(parts)
    ensures c + 2 <= |t| && WellFormed(parts[2..]) && t[c + 2..] == Join(parts[2..])
    ensures Scan(t, pos) == Prefixed([parts[0], parts[1]], Scan(t, c + 2))
  {
    WellFormedUncons(parts);
    var p, code, rest := parts[0], parts[1], parts[2..];
    var o := pos + |p|;
    c := o + 2 + |code|;
    Unlayout(t, pos, p, code, Join(rest));
    ScanAtDirective(t, pos, o, c);
  }

  /** The iteration at `pos` over plain text up to `o` and a directive at `o` .. `c` with delimitable code. */
  lemma ScanAtDirective(t: string, pos: nat, o: nat, c: nat)
    requires pos <= o && o + 2 <= c && c + 2 <= |t| && OpenAt(t, o) && CloseAt(t, c)
    requires Plain(t[pos..o]) && Plain(t[o + 2..c]) && Delimitable(t[o + 2..c])
    ensures Scan(t, pos) == Prefixed([t[pos..o], t[o + 2..c]], Scan(t, c + 2))
  {
    DirectiveFound(t, pos, o, c);
    ScanDirective(t, pos, o, c);
  }

  /**
   * For a template without `<%>`, the tokenizer succeeds with `parts` exactly
   * when `parts` is well formed and joins back to the template: splitting and
   * joining are inverse.
   */
  lemma TokenizeJoinInverse(t: string, parts: seq<string>)
    requires NoOverlap(t)
    ensures Scan(t, 0) == Ok(parts) <==> WellFormed(parts) && Join(parts) == t
  {
    if Scan(t, 0) == Ok(parts) {
      ScanWellFormed(t, 0);
      ScanJoin(t, 0);
    }
    if WellFormed(parts) && Join(parts) == t {
      JoinScan(t, 0, parts);
    }
  }

  /**
   * `<%>` is read as an empty directive whose `%` serves both delimiters
   * (`closePos == openPos + 1`, so `slice` yields ""); joining the parts then
   * gives `<%%>`, not the template.
   */
  lemma OverlapIsEmptyDirective(t: string)
    requires t == "<%>"
    ensures Scan(t, 0) == Ok(["", "", ""])
    ensures Join(["", "", ""]) == "<%%>" != t
  {
    assert OpenAt(t, 0) && CloseAt(t, 1);
    FindIs(t, '<', '%', 0, 0);
    FindIs(t, '%', '>', 0, 1);
    assert Find(t, '<', '%', 2) == -1;
    ScanDirective(t, 0, 0, 1);
    ScanNone(t, 3);
    assert t[3..] == [] && t[0..0] == [] && Slice(t, 2, 1) == [];
    assert [t[0..0], Slice(t, 2, 1)] + [t[3..]] == ["", "", ""];
    var empty := ["", "", ""];
    assert empty[2..] == [""];
    assert Join(empty) == "" + "<%" + "" + "%>" + "" == "<%%>";
    assert |t| == 3;
  }

  // ---------------------------------------------------------------------------
  // The errors and the positions they report

  /** The iteration that finds neither delimiter ends the walk successfully. */
  lemma ScanEnds(t: string, pos: nat)
    requires pos <= |t| && Find(t, '<', '%', pos) == -1 && Find(t, '%', '>', pos) == -1
    ensures Scan(t, pos) == Ok([t[pos..]])
  {
  }

  /** The iteration that finds a `<%` but no `%>` throws `MissingClose`. */
  lemma ScanMissing(t: string, pos: nat)
    requires pos <= |t| && Find(t, '<', '%', pos) != -1 && Find(t, '%', '>', pos) == -1
    ensures Scan(t, pos) == Err(MissingClose)
  {
  }

  /**
   * The delimiters an accepted iteration finds are found again, at the same
   * places, in any prefix of the template that still holds the `%>`.
   */
  lemma PrefixFinds(t: string, pos: nat, m: nat)
    requires pos <= |t| && m <= |t|
    requires Find(t, '<', '%', pos) != -1
    requires Find(t, '<', '%', pos) <= Find(t, '%', '>', pos)
    requires Find(t, '%', '>', pos) + 2 <= m
    requires var n := Find(t, '<', '%', Find(t, '<', '%', pos) + 2);
             n == -1 || n >= Find(t, '%', '>', pos)
    ensures var o, c := Find(t, '<', '%', pos), Find(t, '%', '>', pos);
            && pos <= o < c
            && Find(t[..m], '<', '%', pos) == o && Find(t[..m], '%', '>', pos) == c
            && (Find(t[..m], '<', '%', o + 2) == -1 || Find(t[..m], '<', '%', o + 2) >= c)
  {
    var o := Find(t, '<', '%', pos);
    FindInPrefix(t, '<', '%', pos, m);
    FindInPrefix(t, '%', '>', pos, m);
    FindInPrefix(t, '<', '%', o + 2, m);
  }

  /**
   * An iteration that accepts a directive closing at `c` does the same on any
   * prefix of the template that still holds that `%>`.
   */
  lemma StepInPrefix(t: string, pos: nat, m: nat)
    requires pos <= |t| && m <= |t|
    requires Find(t, '<', '%', pos) != -1
    requires Find(t, '<', '%', pos) <= Find(t, '%', '>', pos)
    requires Find(t, '%', '>', pos) + 2 <= m
    requires var n := Find(t, '<', '%', Find(t, '<', '%', pos) + 2);
             n == -1 || n >= Find(t, '%', '>', pos)
    ensures var o, c := Find(t, '<', '%', pos), Find(t, '%', '>', pos);
            pos <= o < c && Scan(t[..m], pos) == Prefixed([t[pos..o], Slice(t, o + 2, c)], Scan(t[..m], c + 2))
  {
    var o, c := Find(t, '<', '%', pos), Find(t, '%', '>', pos);
    PrefixFinds(t, pos, m);
    ScanDirective(t[..m], pos, o, c);
    SlicesInPrefix(t, m, pos, o, c);
  }

  /** The pieces of a directive read the same from a prefix that holds it. */
  lemma SlicesInPrefix(t: string, m: nat, pos: nat, o: nat, c: nat)
    requires pos <= o < c && c + 2 <= m <= |t|
    ensures t[..m][pos..o] == t[pos..o] && Slice(t[..m], o + 2, c) == Slice(t, o + 2, c)
  {
  }

  /** An error met after an accepted directive is the error of the whole walk. */
  lemma ErrorAfterDirective(t: string, pos: nat)
    requires pos <= |t| && Scan(t, pos).Err?
    requires Find(t, '<', '%', pos) != -1 && Find(t, '%', '>', pos) != -1
    requires Find(t, '<', '%', pos) <= Find(t, '%', '>', pos)
    requires var n := Find(t, '<', '%', Find(t, '<', '%', pos) + 2);
             n == -1 || n >= Find(t, '%', '>', pos)
    ensures var c := Find(t, '%', '>', pos);
            pos <= c && c + 2 <= |t| && Scan(t, c + 2) == Scan(t, pos)
  {
  }

  /** The walk up to a later error still passes the directive accepted at `pos`. */
  lemma PrefixAfterDirective(t: string, pos: nat, m: nat)
    requires pos <= |t| && m <= |t|
    requires Find(t, '<', '%', pos) != -1
    requires Find(t, '<', '%', pos) <= Find(t, '%', '>', pos)
    requires Find(t, '%', '>', pos) + 2 <= m
    requires var n := Find(t, '<', '%', Find(t, '<', '%', pos) + 2);
             n == -1 || n >= Find(t, '%', '>', pos)
    ensures var c := Find(t, '%', '>', pos);
            (Scan(t[..m], c + 2).Ok? ==> Scan(t[..m], pos).Ok?)
            && (Scan(t[..m], c + 2) == Err(MissingClose) ==> Scan(t[..m], pos) == Err(MissingClose))
  {
    StepInPrefix(t, pos, m);
  }

  /** The iteration at `pos` itself throws `Unexpected '%>'`: the walk up to that `%>` ends cleanly. */
  lemma CloseHere(t: string, pos: nat)
    requires pos <= |t| && Find(t, '%', '>', pos) != -1
    requires Find(t, '<', '%', pos) == -1 || Find(t, '%', '>', pos) < Find(t, '<', '%', pos)
    ensures var c := Find(t, '%', '>', pos);
            pos <= c && CloseAt(t, c) && Scan(t[..c], pos).Ok?
  {
    var c := Find(t, '%', '>', pos);
    FindInPrefix(t, '<', '%', pos, c);
    FindInPrefix(t, '%', '>', pos, c);
    ScanEnds(t[..c], pos);
  }

  /** The iteration at `pos` itself throws `Unexpected '<%'`: the walk up to that `<%` misses its `%>`. */
  lemma OpenHere(t: string, pos: nat)
    requires pos <= |t| && Find(t, '<', '%', pos) != -1 && Find(t, '%', '>', pos) != -1
    requires var n := Find(t, '<', '%', Find(t, '<', '%', pos) + 2);
             n != -1 && n < Find(t, '%', '>', pos)
    ensures var n := Find(t, '<', '%', Find(t, '<', '%', pos) + 2);
            pos <= n && OpenAt(t, n) && Scan(t[..n], pos) == Err(MissingClose)
  {
    var n := Find(t, '<', '%', Find(t, '<', '%', pos) + 2);
    FindInPrefix(t, '<', '%', pos, n);
    FindInPrefix(t, '%', '>', pos, n);
    ScanMissing(t[..n], pos);
  }

  /** The iteration at `pos` itself throws `Missing '%>'`: no `%>` follows its `<%`. */
  lemma MissingHere(t: string, pos: nat)
    requires pos <= |t| && Find(t, '<', '%', pos) != -1 && Find(t, '%', '>', pos) == -1
    ensures var o := Find(t, '<', '%', pos);
            pos <= o && OpenAt(t, o) && (forall j :: o <= j ==> !CloseAt(t, j)) && Scan(t[..o], pos).Ok?
  {
    var o := Find(t, '<', '%', pos);
    FindFirst(t, '%', '>', pos);
    FindInPrefix(t, '<', '%', pos, o);
    FindInPrefix(t, '%', '>', pos, o);
    ScanEnds(t[..o], pos);
  }

  /** Where an `Unexpected '%>'` comes from: this iteration, or a later one after an accepted directive. */
  lemma CloseErrorCases(t: string, pos: nat, n: nat)
    requires pos <= |t| && Scan(t, pos) == Err(UnexpectedClose(n))
    ensures var o, c := Find(t, '<', '%', pos), Find(t, '%', '>', pos);
            var next := Find(t, '<', '%', o + 2);
            c != -1
            && (|| ((o == -1 || c < o) && n == c)
                || (o != -1 && o <= c && (next == -1 || next >= c)
                    && pos <= c && c + 2 <= |t| && Scan(t, c + 2) == Err(UnexpectedClose(n))))
  {
    var o, c := Find(t, '<', '%', pos), Find(t, '%', '>', pos);
    if o != -1 && c != -1 && o <= c {
      ErrorAfterDirective(t, pos);
    }
  }

  /** Where an `Unexpected '<%'` comes from: this iteration, or a later one after an accepted directive. */
  lemma OpenErrorCases(t: string, pos: nat, n: nat)
    requires pos <= |t| && Scan(t, pos) == Err(UnexpectedOpen(n))
    ensures var o, c := Find(t, '<', '%', pos), Find(t, '%', '>', pos);
            var next := Find(t, '<', '%', o + 2);
            o != -1 && c != -1 && o <= c
            && (|| (next != -1 && next < c && n == next)
                || ((next == -1 || next >= c) && pos <= c && c + 2 <= |t| && Scan(t, c + 2) == Err(UnexpectedOpen(n))))
  {
    var o, c := Find(t, '<', '%', pos), Find(t, '%', '>', pos);
    var next := Find(t, '<', '%', o + 2);
    if next == -1 || next >= c {
      ErrorAfterDirective(t, pos);
    }
  }

  /** Where a `Missing '%>'` comes from: this iteration, or a later one after an accepted directive. */
  lemma MissingErrorCases(t: string, pos: nat)
    requires pos <= |t| && Scan(t, pos) == Err(MissingClose)
    ensures var o, c := Find(t, '<', '%', pos), Find(t, '%', '>', pos);
            var next := Find(t, '<', '%', o + 2);
            o != -1
            && (|| c == -1
                || (c != -1 && o <= c && (next == -1 || next >= c)
                    && pos <= c && c + 2 <= |t| && Scan(t, c + 2) == Err(MissingClose)))
  {
    var o, c := Find(t, '<', '%', pos), Find(t, '%', '>', pos);
    if c != -1 {
      ErrorAfterDirective(t, pos);
    }
  }

  /**
   * `Unexpected '%>' at position n`: a `%>` sits at `n`, and the template up to
   * it splits without error, so it is the first `%>` that closes nothing.
   */
  lemma {:induction false} UnexpectedCloseReported(t: string, pos: nat, n: nat)
    requires pos <= |t| && Scan(t, pos) == Err(UnexpectedClose(n))
    ensures pos <= n && CloseAt(t, n) && Scan(t[..n], pos).Ok?
    decreases |t| - pos
  {
    var o, c := Find(t, '<', '%', pos), Find(t, '%', '>', pos);
    CloseErrorCases(t, pos, n);
    if o == -1 || c < o {
      CloseHere(t, pos);
    } else {
      UnexpectedCloseReported(t, c + 2, n);
      PrefixAfterDirective(t, pos, n);
    }
  }

  /**
   * `Unexpected '<%' at position n`: a `<%` sits at `n`, and the template up to
   * it ends inside an unclosed directive. The directive is opened at some `o`
   * reached without error, and neither a `<%` nor a `%>` lies between that
   * opener and `n`, so `n` is the first `<%` nested inside it.
   */
  lemma UnexpectedOpenReported(t: string, pos: nat, n: nat)
    requires pos <= |t| && Scan(t, pos) == Err(UnexpectedOpen(n))
    ensures pos <= n && OpenAt(t, n) && Scan(t[..n], pos) == Err(MissingClose)
    ensures exists o :: pos <= o && o + 2 <= n && OpenAt(t, o) && Scan(t[..o], pos).Ok?
                        && (forall j :: o + 2 <= j < n ==> !OpenAt(t, j))
                        && (forall j :: o <= j < n ==> !CloseAt(t, j))
  {
    var o := UnexpectedOpenAt(t, pos, n);
  }

  /** The iteration at `pos` throws `Unexpected '<%'`: its opener, reached cleanly, encloses `n` with nothing between. */
  lemma NestedOpenHere(t: string, pos: nat)
    requires pos <= |t| && Find(t, '<', '%', pos) != -1 && Find(t, '%', '>', pos) != -1
    requires var n := Find(t, '<', '%', Find(t, '<', '%', pos) + 2);
             n != -1 && n < Find(t, '%', '>', pos)
    ensures var o := Find(t, '<', '%', pos);
            var n := Find(t, '<', '%', o + 2);
            pos <= o && o + 2 <= n && OpenAt(t, o) && Scan(t[..o], pos).Ok?
            && (forall j :: o + 2 <= j < n ==> !OpenAt(t, j))
            && (forall j :: o <= j < n ==> !CloseAt(t, j))
  {
    var o := Find(t, '<', '%', pos);
    FindFirst(t, '<', '%', o + 2);
    FindFirst(t, '%', '>', pos);
    FindInPrefix(t, '<', '%', pos, o);
    FindInPrefix(t, '%', '>', pos, o);
    ScanEnds(t[..o], pos);
  }

  /** The `<%` whose directive an `Unexpected '<%'` interrupts, found by following the walk. */
  lemma {:induction false} UnexpectedOpenAt(t: string, pos: nat, n: nat) returns (o: nat)
    requires pos <= |t| && Scan(t, pos) == Err(UnexpectedOpen(n))
    ensures pos <= n && OpenAt(t, n) && Scan(t[..n], pos) == Err(MissingClose)
    ensures pos <= o && o + 2 <= n && OpenAt(t, o) && Scan(t[..o], pos).Ok?
    ensures forall j :: o + 2 <= j < n ==> !OpenAt(t, j)
    ensures forall j :: o <= j < n ==> !CloseAt(t, j)
    decreases |t| - pos
  {
    var c := Find(t, '%', '>', pos);
    var next := Find(t, '<', '%', Find(t, '<', '%', pos) + 2);
    OpenErrorCases(t, pos, n);
    if next != -1 && next < c {
      OpenHere(t, pos);
      NestedOpenHere(t, pos);
      o := Find(t, '<', '%', pos);
    } else {
      o := UnexpectedOpenAt(t, c + 2, n);
      PrefixAfterDirective(t, pos, n);
      PrefixAfterDirective(t, pos, o);
    }
  }

  /**
   * `Missing '%>'`: some `<%` has no `%>` anywhere after it, and the template
   * up to that `<%` splits without error.
   */
  lemma MissingCloseReported(t: string, pos: nat)
    requires pos <= |t| && Scan(t, pos) == Err(MissingClose)
    ensures exists o :: pos <= o && OpenAt(t, o) && (forall j :: o <= j ==> !CloseAt(t, j)) && Scan(t[..o], pos).Ok?
  {
    var o := MissingCloseAt(t, pos);
  }

  /** The `<%` behind a `Missing '%>'`, found by following the walk. */
  lemma {:induction false} MissingCloseAt(t: string, pos: nat) returns (o: nat)
    requires pos <= |t| && Scan(t, pos) == Err(MissingClose)
    ensures pos <= o && OpenAt(t, o) && (forall j :: o <= j ==> !CloseAt(t, j)) && Scan(t[..o], pos).Ok?
    decreases |t| - pos
  {
    var c := Find(t, '%', '>', pos);
    MissingErrorCases(t, pos);
    if c == -1 {
      MissingHere(t, pos);
      o := Find(t, '<', '%', pos);
    } else {
      o := MissingCloseAt(t, c + 2);
      PrefixAfterDirective(t, pos, o);
    }
  }
}
