/**
 The line splitter of `cat` and of the boot script: one pass over the bytes with an 80-byte
 buffer, proved against "drop CR, split at LF, cut each line into pieces of at most 79".
 */
module Lines {
  import opened Words

  const LF: byte := 10
  const CR: byte := 13
  const HASH: byte := 35
  const WIDTH: int := 79

  type Text = seq<byte>

  // ---------------------------------------------------------------------------------------------
  // Splitting and cutting

  function DropCr(s: Text): Text {
    if s == [] then [] else DropCr(s[..|s| - 1]) + if s[|s| - 1] == CR then [] else [s[|s| - 1]]
  }

  /** The index of the first LF; |s| if there is none. */
  function FirstLf(s: Text): (r: int)
    ensures 0 <= r <= |s|
    ensures r < |s| ==> s[r] == LF
    ensures forall i :: 0 <= i < r ==> s[i] != LF
  {
    if s == [] || s[0] == LF then 0 else 1 + FirstLf(s[1..])
  }

  /** The lines of a text; a last line without LF counts unless it is empty. */
  function Split(s: Text): seq<Text>
    decreases |s|
  {
    if s == [] then []
    else if FirstLf(s) == |s| then [s]
    else [s[..FirstLf(s)]] + Split(s[FirstLf(s) + 1..])
  }

  /** A line cut every 79 bytes. */
  function Pieces(line: Text): (r: seq<Text>)
    ensures |r| > 0 && r[0] <= line
    ensures forall i :: 0 <= i < |r| ==> |r[i]| <= WIDTH
    decreases |line|
  {
    if |line| <= WIDTH then [line] else [line[..WIDTH]] + Pieces(line[WIDTH..])
  }

  function CutAll(lines: seq<Text>): seq<Text> {
    if lines == [] then [] else Pieces(lines[0]) + CutAll(lines[1..])
  }

  /** What `cat` prints for a file, and what the boot script considers. */
  function Layout(data: Text): seq<Text> {
    CutAll(Split(DropCr(data)))
  }

  // ---------------------------------------------------------------------------------------------
  // These are the lines and pieces one expects

  function Unlines(lines: seq<Text>): Text {
    if lines == [] then [] else lines[0] + [LF] + Unlines(lines[1..])
  }

  /** Splitting loses nothing: lines joined with LF give the text back, with the final LF the text
      may lack; and no line contains one. */
  lemma {:induction false} SplitUnlines(s: Text)
    ensures Unlines(Split(s)) == (if s == [] || s[|s| - 1] == LF then s else s + [LF])
    ensures forall i :: 0 <= i < |Split(s)| ==> LF !in Split(s)[i]
    decreases |s|
  {
    hide Unlines, Split, FirstLf;
    if s == [] {
      NoLines();
    } else {
      SplitFirst(s);
      var k := FirstLf(s);
      if k < |s| {
        var rest := s[k + 1..];
        SplitUnlines(rest);
        UnlinesCons(s[..k], Split(rest));
        Around(s, k);
        assert rest != [] ==> rest[|rest| - 1] == s[|s| - 1];
        assert s[..k] + [LF] + (rest + [LF]) == s[..k] + [LF] + rest + [LF];
        assert rest == [] ==> s[..k] + [LF] + rest == s[..k] + [LF];
      } else {
        UnlinesEnds(s);
      }
    }
  }

  lemma NoLines()
    ensures Split([]) == [] && Unlines([]) == []
  {
  }

  lemma UnlinesEnds(line: Text)
    ensures Unlines([]) == [] && Unlines([line]) == line + [LF]
  {
    assert [line][1..] == [];
    assert Unlines([line]) == line + [LF] + Unlines([]);
  }

  lemma UnlinesCons(line: Text, rest: seq<Text>)
    ensures Unlines([line] + rest) == line + [LF] + Unlines(rest)
  {
    assert ([line] + rest)[1..] == rest;
  }

  /** A text is its first line and the rest. */
  lemma SplitFirst(s: Text)
    requires s != []
    ensures var k := FirstLf(s);
            && LF !in s[..k]
            && (k < |s| ==> Split(s) == [s[..k]] + Split(s[k + 1..]) && s == s[..k] + [LF] + s[k + 1..])
            && (k == |s| ==> Split(s) == [s] && s[..k] == s && s[|s| - 1] != LF)
  {
    hide FirstLf;
    if FirstLf(s) < |s| { Around(s, FirstLf(s)); }
  }

  lemma Around(s: Text, k: int)
    requires 0 <= k < |s|
    ensures s == s[..k] + [s[k]] + s[k + 1..]
  {
  }

  function Concat(pieces: seq<Text>): Text {
    if pieces == [] then [] else pieces[0] + Concat(pieces[1..])
  }

  /** Cutting loses nothing: the pieces run together are the line, all but the last are exactly 79
      bytes, and no piece is empty unless the line is: a line of exactly 79 leaves no blank one. */
  lemma {:induction false} PiecesExact(line: Text)
    ensures Concat(Pieces(line)) == line
    ensures forall i :: 0 <= i < |Pieces(line)| - 1 ==> |Pieces(line)[i]| == WIDTH
    ensures line != [] ==> forall i :: 0 <= i < |Pieces(line)| ==> Pieces(line)[i] != []
    decreases |line|
  {
    if |line| <= WIDTH {
      assert Concat([line]) == line + Concat([line][1..]);
    } else {
      var rest := line[WIDTH..];
      PiecesExact(rest);
      assert Pieces(line)[1..] == Pieces(rest);
    }
  }

  // ---------------------------------------------------------------------------------------------
  // The buffer step by step

  /** What is still to come when `line` is in the buffer and `rest` is unread. */
  function Pending(line: Text, rest: Text): seq<Text> {
    CutAll(Split(line + rest))
  }

  lemma FirstLfIs(s: Text, k: int)
    requires 0 <= k <= |s| && (k < |s| ==> s[k] == LF)
    requires forall i :: 0 <= i < k ==> s[i] != LF
    ensures FirstLf(s) == k
  {
  }

  lemma FirstLfAppend(line: Text, rest: Text)
    requires LF !in line
    ensures FirstLf(line + rest) == |line| + FirstLf(rest)
  {
    var s := line + rest;
    assert forall i :: |line| <= i < |s| ==> s[i] == rest[i - |line|];
    FirstLfIs(s, |line| + FirstLf(rest));
  }

  /** A newline completes the buffered line, even an empty or a full one. */
  lemma AtNewline(line: Text, rest: Text)
    requires LF !in line && |line| <= WIDTH
    ensures Pending(line, [LF] + rest) == [line] + Pending([], rest)
  {
    var s := line + ([LF] + rest);
    FirstLfAppend(line, [LF] + rest);
    assert FirstLf([LF] + rest) == 0;
    assert s[..|line|] == line && s[|line| + 1..] == rest;
    assert [] + rest == rest;
    assert Split(s) == [line] + Split(rest);
    assert ([line] + Split(rest))[1..] == Split(rest);
  }

  /** A full buffer is a piece of its own when the line goes on. */
  lemma AtWrap(line: Text, b: byte, rest: Text)
    requires LF !in line && |line| == WIDTH && b != LF
    ensures Pending(line, [b] + rest) == [line] + Pending([b], rest)
  {
    var t := [b] + rest;
    assert [] + t == t;
    FirstLfAppend(line, t);
    assert t[0] == b;
    if FirstLf(t) == |t| {
      WrapLast(line, t);
    } else {
      WrapMiddle(line, t, FirstLf(t));
    }
  }

  lemma WrapPieces(line: Text, t: Text)
    requires |line| == WIDTH && t != []
    ensures Pieces(line + t) == [line] + Pieces(t)
  {
    assert (line + t)[WIDTH..] == t && (line + t)[..WIDTH] == line;
  }

  lemma CutAllCons(l: Text, tail: seq<Text>)
    ensures CutAll([l] + tail) == Pieces(l) + CutAll(tail)
    ensures CutAll([l]) == Pieces(l)
  {
    assert ([l] + tail)[1..] == tail && [l][1..] == [];
    assert CutAll([l]) == Pieces(l) + CutAll([]);
  }

  lemma WrapLast(line: Text, t: Text)
    requires |line| == WIDTH && t != [] && FirstLf(t) == |t| && FirstLf(line + t) == |line + t|
    ensures CutAll(Split(line + t)) == [line] + CutAll(Split([] + t))
  {
    hide CutAll, Pieces, FirstLf;
    assert [] + t == t;
    assert Split(line + t) == [line + t] && Split(t) == [t];
    WrapPieces(line, t);
    CutAllCons(line + t, []);
    CutAllCons(t, []);
  }

  lemma SliceSum(line: Text, t: Text, k: int)
    requires 0 <= k < |t|
    ensures (line + t)[..|line| + k] == line + t[..k] && (line + t)[|line| + k + 1..] == t[k + 1..]
  {
  }

  lemma CutFirst(s: Text)
    requires FirstLf(s) < |s|
    ensures CutAll(Split(s)) == Pieces(s[..FirstLf(s)]) + CutAll(Split(s[FirstLf(s) + 1..]))
  {
    hide CutAll, Pieces, FirstLf, Split;
    SplitFirst(s);
    CutAllCons(s[..FirstLf(s)], Split(s[FirstLf(s) + 1..]));
  }

  lemma Assoc(a: seq<Text>, b: seq<Text>, c: seq<Text>)
    ensures (a + b) + c == a + (b + c)
  {
  }

  lemma WrapMiddle(line: Text, t: Text, k: int)
    requires |line| == WIDTH && 1 <= k == FirstLf(t) < |t| && FirstLf(line + t) == WIDTH + k
    ensures CutAll(Split(line + t)) == [line] + CutAll(Split([] + t))
  {
    hide CutAll, Pieces, FirstLf, Split;
    var s, a, rest := line + t, t[..k], t[k + 1..];
    assert s[..FirstLf(s)] == line + a && s[FirstLf(s) + 1..] == rest by { SliceSum(line, t, k); }
    assert CutAll(Split(s)) == Pieces(line + a) + CutAll(Split(rest)) by { CutFirst(s); }
    assert CutAll(Split(t)) == Pieces(a) + CutAll(Split(rest)) by { CutFirst(t); }
    assert Pieces(line + a) == [line] + Pieces(a) by { WrapPieces(line, a); }
    Assoc([line], Pieces(a), CutAll(Split(rest)));
    assert [] + t == t;
  }

  /** At the end of the file a non-empty buffer is the last piece. */
  lemma AtEnd(line: Text)
    requires LF !in line && |line| <= WIDTH
    ensures Pending(line, []) == if line == [] then [] else [line]
  {
    assert line + [] == line;
    if line != [] {
      FirstLfAppend(line, []);
      assert [line][1..] == [];
      assert CutAll([line]) == Pieces(line) + CutAll([]);
    }
  }

  lemma {:induction false} DropCrStep(data: Text, i: int)
    requires 0 <= i < |data|
    ensures DropCr(data[i..]) == (if data[i] == CR then [] else [data[i]]) + DropCr(data[i + 1..])
    decreases |data| - i
  {
    var s := data[i..];
    if |s| > 1 {
      var t := data[..|data| - 1];
      DropCrStep(t, i);
      assert s[..|s| - 1] == t[i..];
      assert data[i + 1..][..|s| - 2] == t[i + 1..];
    } else {
      assert s[..0] == [] && data[i + 1..] == [];
    }
  }

  // ---------------------------------------------------------------------------------------------
  // The loops

  /** A C string: the bytes before the first NUL. */
  function CStr(s: Text): (r: Text)
    ensures r <= s && 0 !in r
    ensures |r| < |s| ==> s[|r|] == 0
  {
    if s == [] || s[0] == 0 then [] else [s[0]] + CStr(s[1..])
  }

  lemma {:induction false} CStrStops(s: Text, n: int)
    requires 0 <= n < |s| && s[n] == 0
    ensures CStr(s) == CStr(s[..n])
    decreases n
  {
    if n > 0 && s[0] != 0 {
      CStrStops(s[1..], n - 1);
      assert s[..n][1..] == s[1..][..n - 1];
    }
  }

  function Strings(pieces: seq<Text>): (r: seq<Text>)
    ensures |r| == |pieces| && forall i :: 0 <= i < |r| ==> r[i] == CStr(pieces[i])
  {
    if pieces == [] then [] else Strings(pieces[..|pieces| - 1]) + [CStr(pieces[|pieces| - 1])]
  }

  /** One byte of either loop: the piece completed, if any, and the buffer afterwards. */
  lemma ByteStep(data: Text, i: int, line: Text)
    requires 0 <= i < |data| && LF !in line && |line| <= WIDTH
    ensures var b, rest := data[i], DropCr(data[i + 1..]);
            Pending(line, DropCr(data[i..])) ==
              if b == CR then Pending(line, rest)
              else if b == LF then [line] + Pending([], rest)
              else if |line| >= WIDTH then [line] + Pending([b], rest)
              else Pending(line + [b], rest)
  {
    DropCrStep(data, i);
    var b, rest := data[i], DropCr(data[i + 1..]);
    if b == CR {
      assert [] + rest == rest;
    } else if b == LF {
      AtNewline(line, rest);
    } else if |line| >= WIDTH {
      AtWrap(line, b, rest);
    } else {
      assert line + ([b] + rest) == line + [b] + rest;
    }
  }

  /** `line[li] = 0`, and the C string the buffer then holds. */
  method Terminate(line: array<byte>, li: int) returns (text: Text)
    requires line.Length == 80 && 0 <= li <= WIDTH
    modifies line
    ensures text == CStr(old(line[..li])) && line[..li] == old(line[..li])
  {
    line[li] := 0;
    CStrStops(line[..], li);
    assert line[..][..li] == old(line[..li]);
    text := CStr(line[..]);
  }

  /** `line[li++] = b`. */
  method Store(line: array<byte>, li: int, b: byte) returns (next: int)
    requires line.Length == 80 && 0 <= li < WIDTH
    modifies line
    ensures next == li + 1 && line[..next] == old(line[..li]) + [b]
  {
    line[li] := b;
    next := li + 1;
  }

  lemma StringsSnoc(pieces: seq<Text>, p: Text)
    ensures Strings(pieces + [p]) == Strings(pieces) + [CStr(p)]
  {
    assert (pieces + [p])[..|pieces|] == pieces;
  }

  /** The loop of `cat`: every completed piece goes to Print, the rest of the buffer at the end. */
  method Cat(data: Text) returns (printed: seq<Text>)
    ensures printed == Strings(Layout(data))
  {
    hide Pending, CStr, Layout, DropCr, Strings;
    var line := new byte[80](_ => 0);
    var li := 0;
    printed := [];
    ghost var pieces: seq<Text> := [];
    var i := 0;
    Opening(data);
    NoStrings();
    while i < |data|
      invariant 0 <= i <= |data| && 0 <= li <= WIDTH
      invariant LF !in line[..li]
      invariant printed == Strings(pieces)
      invariant pieces + Pending(line[..li], DropCr(data[i..])) == Layout(data)
      modifies line
    {
      var b := data[i];
      ghost var buffer := line[..li];
      ByteStep(data, i, buffer);
      i := i + 1;
      if b == CR { continue; }
      if b == LF || li >= 79 {
        var text := Terminate(line, li);
        printed := printed + [text];
        StringsSnoc(pieces, buffer);
        ghost var next := if b == LF then [] else [b];
        assert pieces + [buffer] + Pending(next, DropCr(data[i..])) ==
               pieces + ([buffer] + Pending(next, DropCr(data[i..])));
        pieces := pieces + [buffer];
        li := 0;
        if b != LF {
          li := Store(line, li, b);
        }
        assert line[..li] == next;
        continue;
      }
      li := Store(line, li, b);
    }
    assert data[i..] == [];
    NothingLeft();
    AtEnd(line[..li]);
    if li > 0 {
      StringsSnoc(pieces, line[..li]);
      var text := Terminate(line, li);
      printed := printed + [text];
    } else {
      assert pieces + [] == pieces;
    }
  }

  // ---------------------------------------------------------------------------------------------
  // The boot script

  /** Not empty and not a comment. */
  predicate IsCommand(p: Text) {
    p != [] && p[0] != HASH
  }

  function Commands(pieces: seq<Text>): (r: seq<Text>)
    ensures forall p :: p in r <==> p in pieces && IsCommand(p)
  {
    if pieces == [] then []
    else Commands(pieces[..|pieces| - 1]) + if IsCommand(pieces[|pieces| - 1]) then [pieces[|pieces| - 1]] else []
  }

  lemma CommandsSnoc(pieces: seq<Text>, p: Text)
    ensures Commands(pieces + [p]) == Commands(pieces) + if IsCommand(p) then [p] else []
  {
    assert (pieces + [p])[..|pieces|] == pieces;
  }

  lemma {:induction false} CommandsJoin(a: seq<Text>, b: seq<Text>)
    ensures Commands(a + b) == Commands(a) + Commands(b)
  {
    if b == [] {
      assert a + b == a;
    } else {
      var n := |b| - 1;
      CommandsJoin(a, b[..n]);
      assert (a + b)[..|a + b| - 1] == a + b[..n];
    }
  }

  /** The loop over init.sh: exactly the pieces that are neither empty nor start with '#' are
      dispatched, in order. */
  method RunScript(data: Text) returns (dispatched: seq<Text>)
    ensures dispatched == Strings(Commands(Layout(data)))
  {
    hide Pending, CStr, Layout, DropCr, Strings, Commands;
    var line := new byte[80](_ => 0);
    var li := 0;
    dispatched := [];
    ghost var pieces: seq<Text> := [];
    var i := 0;
    Opening(data);
    NoStrings();
    while i < |data|
      invariant 0 <= i <= |data| && 0 <= li <= WIDTH
      invariant LF !in line[..li]
      invariant dispatched == Strings(Commands(pieces))
      invariant pieces + Pending(line[..li], DropCr(data[i..])) == Layout(data)
      modifies line
    {
      var b := data[i];
      ghost var buffer := line[..li];
      ByteStep(data, i, buffer);
      i := i + 1;
      if b == CR { continue; }
      if b == LF || li >= 79 {
        CommandsSnoc(pieces, buffer);
        var text := Terminate(line, li);
        if li > 0 && line[0] != HASH {
          dispatched := dispatched + [text];
          StringsSnoc(Commands(pieces), buffer);
        }
        ghost var next := if b == LF then [] else [b];
        assert pieces + [buffer] + Pending(next, DropCr(data[i..])) ==
               pieces + ([buffer] + Pending(next, DropCr(data[i..])));
        pieces := pieces + [buffer];
        li := 0;
        if b != LF {
          li := Store(line, li, b);
        }
        assert line[..li] == next;
        continue;
      }
      li := Store(line, li, b);
    }
    assert data[i..] == [];
    NothingLeft();
    AtEnd(line[..li]);
    if li > 0 {
      ghost var buffer := line[..li];
      CommandsSnoc(pieces, buffer);
      StringsSnoc(Commands(pieces), buffer);
      var text := Terminate(line, li);
      if line[0] != HASH {
        dispatched := dispatched + [text];
      }
    } else {
      assert pieces + [] == pieces;
    }
  }

  /** One would expect whole lines to be run or skipped. */
  function ScriptLines(data: Text): seq<Text> {
    Commands(Split(DropCr(data)))
  }

  /** A line that survives the cutting: it fits the buffer, or it is a comment whose continuation
      pieces all look like comments too. */
  ghost predicate Unharmed(line: Text) {
    |line| <= WIDTH || forall p :: p in Pieces(line) ==> IsComment(p)
  }

  predicate IsComment(p: Text) {
    p != [] && p[0] == HASH
  }

  lemma NoCommands(pieces: seq<Text>)
    requires forall p :: p in pieces ==> p != []
    ensures Commands(pieces) == [] <==> forall p :: p in pieces ==> IsComment(p)
  {
    if p :| p in pieces && !IsComment(p) {
      assert p in Commands(pieces);
    } else {
      var c := Commands(pieces);
      assert |c| > 0 ==> c[0] in c;
    }
  }

  lemma LongPieces(line: Text)
    requires |line| > WIDTH
    ensures Commands(Pieces(line)) == [] <==> Unharmed(line)
    ensures line[0] != HASH ==> !Unharmed(line)
  {
    PiecesExact(line);
    NoCommands(Pieces(line));
    assert Pieces(line)[0] in Pieces(line);
  }

  lemma {:induction false} NothingLong(lines: seq<Text>)
    ensures forall p :: p in Commands(CutAll(lines)) ==> |p| <= WIDTH
    ensures forall p :: p in CutAll(lines) ==> |p| <= WIDTH
  {
    if lines != [] {
      NothingLong(lines[1..]);
    }
  }

  lemma CutAllFirst(lines: seq<Text>)
    requires lines != []
    ensures Commands(CutAll(lines)) == Commands(Pieces(lines[0])) + Commands(CutAll(lines[1..]))
    ensures Commands(lines) == Commands([lines[0]]) + Commands(lines[1..])
  {
    CommandsJoin(Pieces(lines[0]), CutAll(lines[1..]));
    assert lines == [lines[0]] + lines[1..];
    CommandsJoin([lines[0]], lines[1..]);
  }

  lemma OneCommand(line: Text)
    ensures Commands([line]) == if IsCommand(line) then [line] else []
  {
    assert [line][..0] == [];
  }

  /** When every over-long line is a comment, cutting can only add commands, and adds none exactly
      when every line is unharmed. */
  lemma {:induction false} CuttingAdds(lines: seq<Text>)
    requires forall l :: l in lines && |l| > WIDTH ==> l[0] == HASH
    ensures |Commands(CutAll(lines))| >= |Commands(lines)|
    ensures (forall l :: l in lines ==> Unharmed(l)) ==> Commands(CutAll(lines)) == Commands(lines)
    ensures (exists l :: l in lines && !Unharmed(l)) ==> |Commands(CutAll(lines))| > |Commands(lines)|
  {
    hide Commands, Unharmed, Pieces;
    if lines != [] {
      var l := lines[0];
      assert l in lines;
      CuttingAdds(lines[1..]);
      CutAllFirst(lines);
      OneCommand(l);
      OnePiece(l);
      assert lines == [l] + lines[1..];
    } else {
      assert CutAll(lines) == [];
    }
  }

  lemma OnePiece(l: Text)
    requires |l| > WIDTH ==> l[0] == HASH
    ensures Unharmed(l) ==> Commands(Pieces(l)) == if IsCommand(l) then [l] else []
    ensures !Unharmed(l) ==> !IsCommand(l) && |Commands(Pieces(l))| > 0
  {
    if |l| <= WIDTH {
      OneCommand(l);
    } else {
      LongPieces(l);
    }
  }

  /** Cutting disturbs nothing exactly when every line is unharmed. Otherwise a long command is cut
      into pieces, or the tail of a long comment becomes a command. */
  lemma CutAsDocumented(lines: seq<Text>)
    ensures Commands(CutAll(lines)) == Commands(lines) <==> forall l :: l in lines ==> Unharmed(l)
    ensures (exists l :: l in lines && !Unharmed(l)) ==>
              || |Commands(CutAll(lines))| > |Commands(lines)|
              || exists l :: l in Commands(lines) && |l| > WIDTH
  {
    if l :| l in lines && |l| > WIDTH && l[0] != HASH {
      NothingLong(lines);
      assert l in Commands(lines);
      LongPieces(l);
    } else {
      CuttingAdds(lines);
    }
  }

  /** C strings of pieces are the pieces exactly when no piece has a NUL. */
  lemma {:induction false} StringsAreTexts(pieces: seq<Text>)
    ensures Strings(pieces) == pieces <==> forall p :: p in pieces ==> 0 !in p
  {
    if pieces != [] {
      var n := |pieces| - 1;
      StringsAreTexts(pieces[..n]);
      WholeCStr(pieces[n]);
      assert pieces == pieces[..n] + [pieces[n]];
    }
  }

  lemma {:induction false} WholeCStr(s: Text)
    ensures CStr(s) == s <==> 0 !in s
  {
    if s != [] && s[0] != 0 {
      WholeCStr(s[1..]);
      assert s == [s[0]] + s[1..];
    }
  }

  /** The boot script runs exactly its non-empty, non-comment lines, as documented, if and only if
      every line is unharmed by the cutting and none that is to run has a NUL in it. */
  lemma ScriptAsDocumented(data: Text)
    ensures Strings(Commands(Layout(data))) == ScriptLines(data) <==>
              && (forall l :: l in Split(DropCr(data)) ==> Unharmed(l))
              && (forall l :: l in ScriptLines(data) ==> 0 !in l)
  {
    var lines := Split(DropCr(data));
    var pieces := Commands(CutAll(lines));
    CutAsDocumented(lines);
    hide Commands, Unharmed, CutAll, Split, DropCr, CStr;
    if forall l :: l in lines ==> Unharmed(l) {
      StringsAreTexts(pieces);
    } else {
      NothingLong(lines);
      if l :| l in Commands(lines) && |l| > WIDTH {
        assert forall p :: p in Strings(pieces) ==> |p| <= WIDTH;
        assert l !in Strings(pieces);
      }
    }
  }

  lemma {:induction false} PlainText(s: Text)
    requires CR !in s && LF !in s
    ensures DropCr(s) == s && FirstLf(s) == |s|
    ensures s != [] ==> Split(s) == [s]
  {
    if s != [] {
      PlainText(s[..|s| - 1]);
      FirstLfIs(s, |s|);
    }
  }

  lemma PlainLayout(s: Text)
    requires CR !in s && LF !in s && s != []
    ensures Layout(s) == Pieces(s) && ScriptLines(s) == Commands([s])
  {
    PlainText(s);
    hide DropCr, Commands, Pieces;
    OnlyLine(s);
  }

  /** A comment one byte too long for the buffer is such a case: its last byte runs as a command. */
  lemma LongCommentRuns(letter: byte)
    requires letter != CR && letter != LF && letter != HASH && letter != 0
    ensures var data := [HASH] + seq<byte>(79, _ => letter);
            ScriptLines(data) == [] && Strings(Commands(Layout(data))) == [[letter]]
  {
    hide DropCr, Commands, Pieces, Strings, CStr, Layout, ScriptLines;
    var data := [HASH] + seq<byte>(79, _ => letter);
    PlainLayout(data);
    var a, b := data[..79], [letter];
    assert data[79..] == b;
    CutInTwo(data);
    CommandsJoin([a], [b]);
    OneCommand(data);
    OneCommand(a);
    OneCommand(b);
    assert [a] + [b] == [a, b];
    OneString(b);
  }

  /** So is a line with a NUL: only what comes before it is run. */
  lemma NulCutsCommand(first: byte, last: byte)
    requires first != CR && first != LF && first != HASH && first != 0 && last != CR && last != LF
    ensures var data := [first, 0, last];
            ScriptLines(data) == [data] && Strings(Commands(Layout(data))) == [[first]]
  {
    hide DropCr, Commands, Pieces, Strings, CStr, Layout, ScriptLines;
    var data := [first, 0, last];
    PlainLayout(data);
    OneFits(data);
    OneCommand(data);
    OneString(data);
    CStrStops(data, 1);
    OneString([first]);
    assert data[..1] == [first];
  }

  lemma OneFits(l: Text)
    requires |l| <= WIDTH
    ensures Pieces(l) == [l]
  {
  }

  lemma OneString(p: Text)
    ensures Strings([p]) == [CStr(p)]
    ensures |p| == 1 && p[0] != 0 ==> CStr(p) == p
  {
    assert [p][..0] == [];
    if |p| == 1 && p[0] != 0 { assert CStr(p) == [p[0]] + CStr(p[1..]); }
  }

  lemma CutInTwo(l: Text)
    requires |l| == 80
    ensures Pieces(l) == [l[..79], l[79..]]
  {
  }

  lemma OnlyLine(l: Text)
    ensures CutAll([l]) == Pieces(l)
  {
    assert CutAll([l]) == Pieces(l) + CutAll([]);
  }

  lemma NoStrings()
    ensures Strings([]) == [] && Commands([]) == []
  {
  }

  lemma NothingLeft()
    ensures DropCr([]) == []
  {
  }

  lemma Opening(data: Text)
    ensures Pending([], DropCr(data[0..])) == Layout(data)
  {
    assert data[0..] == data;
    assert [] + DropCr(data) == DropCr(data);
  }

  // ---------------------------------------------------------------------------------------------
  // Spelled out: what becomes of a text, by its bytes

  /** Only the bytes 13 are dropped, and the others keep their order. */
  lemma {:induction false} DropJoin(a: Text, b: Text)
    ensures DropCr(a + b) == DropCr(a) + DropCr(b)
    decreases |b|
  {
    if b == [] {
      assert a + b == a;
    } else {
      var n := |b| - 1;
      DropJoin(a, b[..n]);
      assert (a + b)[..|a + b| - 1] == a + b[..n];
      DropLast(a + b);
      DropLast(b);
    }
  }

  lemma DropLast(s: Text)
    requires s != []
    ensures DropCr(s) == DropCr(s[..|s| - 1]) + if s[|s| - 1] == 13 then [] else [s[|s| - 1]]
  {
  }

  lemma DropOne(b: byte)
    ensures DropCr([b]) == if b == 13 then [] else [b]
  {
    assert [b][..0] == [];
  }

  lemma {:induction false} NothingDropped(s: Text)
    requires 13 !in s
    ensures DropCr(s) == s
  {
    if s != [] {
      NothingDropped(s[..|s| - 1]);
    }
  }

  /** A short line ended by 10, or by 13 and 10, is one piece, whatever follows. */
  lemma LineOfText(line: Text, rest: Text)
    requires |line| <= 79 && 10 !in line && 13 !in line
    ensures Layout(line + [10] + rest) == [line] + Layout(rest)
    ensures Layout(line + [13, 10] + rest) == [line] + Layout(rest)
  {
    hide Split, CutAll, DropCr, Pending;
    NothingDropped(line);
    DropOne(10);
    DropOne(13);
    DropJoin(line, [10]);
    DropJoin(line + [10], rest);
    DropJoin([13], [10]);
    assert [13] + [10] == [13, 10];
    DropJoin(line, [13, 10]);
    DropJoin(line + [13, 10], rest);
    assert line + [10] + DropCr(rest) == line + ([10] + DropCr(rest));
    assert line + ([] + [10]) + DropCr(rest) == line + ([10] + DropCr(rest));
    AtNewline(line, DropCr(rest));
    PendingIs(line, [10] + DropCr(rest));
    PendingIs([], DropCr(rest));
    assert [] + DropCr(rest) == DropCr(rest);
  }

  lemma PendingIs(line: Text, rest: Text)
    ensures Pending(line, rest) == CutAll(Split(line + rest))
  {
  }

  /** 79 bytes without 10 or 13 are a piece of their own when the line goes on. */
  lemma LongLineOfText(line: Text, b: byte, rest: Text)
    requires |line| == 79 && 10 !in line && 13 !in line && b != 10 && b != 13
    ensures Layout(line + [b] + rest) == [line] + Layout([b] + rest)
  {
    hide Split, CutAll, DropCr, Pending;
    NothingDropped(line);
    DropOne(b);
    DropJoin(line, [b]);
    DropJoin(line + [b], rest);
    DropJoin([b], rest);
    assert line + [b] + DropCr(rest) == line + ([b] + DropCr(rest));
    AtWrap(line, b, DropCr(rest));
    PendingIs(line, [b] + DropCr(rest));
    PendingIs([b], DropCr(rest));
  }

  /** The end of a text: a last short line without 10 is a piece unless it is empty. */
  lemma EndOfText(line: Text)
    requires |line| <= 79 && 10 !in line && 13 !in line
    ensures Layout(line) == if line == [] then [] else [line]
  {
    hide Split, CutAll, DropCr, Pending;
    NothingDropped(line);
    AtEnd(line);
    PendingIs(line, []);
    assert line + [] == line;
  }

  /** Of the pieces those that are not empty and do not begin with 35 are commands, in order. */
  lemma CommandsSpelledOut(p: Text, rest: seq<Text>)
    ensures Commands([p] + rest) == (if p != [] && p[0] != 35 then [p] else []) + Commands(rest)
    ensures Commands([]) == []
  {
    OneCommand(p);
    CommandsJoin([p], rest);
  }

  /** A byte with no meaning to the splitter. */
  predicate Plain(b: byte) {
    b != 0 && b != 10 && b != 13 && b != 35
  }

  /** A script of four lines: a command ended by 13 and 10, a comment, an empty line, a command. */
  lemma FourLineScript(a: byte, b: byte, c: byte)
    requires Plain(a) && Plain(b) && Plain(c)
    ensures Strings(Commands(Layout([a, 13, 10, 35, b, 10, 10, c]))) == [[a], [c]]
  {
    var data := [a, 13, 10, 35, b, 10, 10, c];
    hide Layout, Commands, Strings, CStr;
    assert data == [a] + [13, 10] + [35, b, 10, 10, c];
    LineOfText([a], [35, b, 10, 10, c]);
    assert [35, b, 10, 10, c] == [35, b] + [10] + [10, c];
    LineOfText([35, b], [10, c]);
    assert [10, c] == [] + [10] + [c];
    LineOfText([], [c]);
    EndOfText([c]);
    FourPieces(a, b, c);
  }

  lemma FourPieces(a: byte, b: byte, c: byte)
    requires a != 0 && c != 0 && a != 35 && c != 35
    ensures Strings(Commands([[a]] + ([[35, b]] + ([[]] + [[c]])))) == [[a], [c]]
  {
    hide Commands, Strings, CStr;
    CommandsSpelledOut([a], [[35, b]] + ([[]] + [[c]]));
    CommandsSpelledOut([35, b], [[]] + [[c]]);
    CommandsSpelledOut([], [[c]]);
    CommandsSpelledOut([c], []);
    assert [[c]] + [] == [[c]];
    StringsSnoc([], [a]);
    StringsSnoc([[a]], [c]);
    NoStrings();
    OneString([a]);
    OneString([c]);
    assert [] + [[a]] == [[a]] && [[a]] + [[c]] == [[a], [c]];
  }
}
