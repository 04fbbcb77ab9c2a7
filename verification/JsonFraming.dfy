// libsrc/jsonserver/JsonClientConnection.cpp, readRequest: messages end at a newline, however the
// bytes arrive.

module JsonFraming {
  type Text = seq<char>

  // QByteArray::indexOf('\n'): the position of the first newline, or -1.
  function NewlineAt(s: Text): (i: int)
    ensures -1 <= i < |s|
  {
    if s == [] then -1
    else if s[0] == '\n' then 0
    else
      var rest := NewlineAt(s[1..]);
      if rest < 0 then -1 else rest + 1
  }

  lemma {:induction false} NewlineFacts(s: Text)
    ensures var i := NewlineAt(s);
            (i >= 0 ==> s[i] == '\n') && '\n' !in s[..if i < 0 then |s| else i]
  {
    if s != [] && s[0] != '\n' {
      NewlineFacts(s[1..]);
      var i := NewlineAt(s);
      var n := if i < 0 then |s| else i;
      assert s[..n] == [s[0]] + s[1..][..n - 1];
    }
  }

  lemma {:induction false} NewlineIsAt(s: Text, i: nat)
    requires i < |s| && s[i] == '\n' && '\n' !in s[..i]
    ensures NewlineAt(s) == i
  {
    if i > 0 {
      assert s[0] == s[..i][0] && s[1..][..i - 1] == s[..i][1..];
      NewlineIsAt(s[1..], i - 1);
    }
  }

  // A stream cut at its newlines: lines in order, and what follows the last newline.
  datatype Pieces = End(rest: Text) | Line(line: Text, later: Pieces)

  function Cut(s: Text): Pieces
    decreases |s|
  {
    var n := NewlineAt(s) + 1;
    if n == 0 then End(s) else Line(s[..n], Cut(s[n..]))
  }

  function Lines(p: Pieces): seq<Text> {
    match p
    case End(_) => []
    case Line(line, later) => [line] + Lines(later)
  }

  function Rest(p: Pieces): Text {
    match p
    case End(rest) => rest
    case Line(_, later) => Rest(later)
  }

  function Glue(p: Pieces): Text {
    match p
    case End(rest) => rest
    case Line(line, later) => line + Glue(later)
  }

  // One newline in each line, at its end, and none in the rest.
  predicate CutAtNewlines(p: Pieces) {
    match p
    case End(rest) => '\n' !in rest
    case Line(line, later) =>
      line != "" && line[|line| - 1] == '\n' && '\n' !in line[..|line| - 1] && CutAtNewlines(later)
  }

  // Cutting loses nothing and cuts at the newlines.
  lemma {:induction false} CutIsFaithful(s: Text)
    ensures CutAtNewlines(Cut(s)) && Glue(Cut(s)) == s
    decreases |s|
  {
    hide NewlineAt;
    var n := NewlineAt(s) + 1;
    NewlineFacts(s);
    if n > 0 {
      CutIsFaithful(s[n..]);
      assert s[..n][..n - 1] == s[..n - 1] && s == s[..n] + s[n..];
    } else {
      assert s[..|s|] == s;
    }
  }

  // There is only one way to cut a stream at its newlines.
  lemma {:induction false} CutIsUnique(p: Pieces)
    requires CutAtNewlines(p)
    ensures Cut(Glue(p)) == p
  {
    hide NewlineAt;
    match p {
      case End(rest) => NewlineFacts(rest);
      case Line(line, later) =>
        var n, s := |line|, Glue(p);
        assert s[..n - 1] == line[..n - 1] && s[..n] == line && s[n..] == Glue(later);
        NewlineIsAt(s, n - 1);
        CutIsUnique(later);
    }
  }

  function Flatten(lines: seq<Text>): Text {
    if lines == [] then "" else lines[0] + Flatten(lines[1..])
  }

  predicate EndsAtNewline(line: Text) {
    line != "" && line[|line| - 1] == '\n' && '\n' !in line[..|line| - 1]
  }

  // The lines, one after the other, and the rest are the stream; every line ends at its only
  // newline, and the rest has none.
  predicate Splits(lines: seq<Text>, rest: Text, s: Text) {
    && Flatten(lines) + rest == s
    && (forall line :: line in lines ==> EndsAtNewline(line)) && '\n' !in rest
  }

  lemma {:induction false} PiecesSplit(p: Pieces)
    requires CutAtNewlines(p)
    ensures Splits(Lines(p), Rest(p), Glue(p))
  {
    match p {
      case End(rest) => assert "" + rest == rest;
      case Line(line, later) =>
        PiecesSplit(later);
        assert line + (Flatten(Lines(later)) + Rest(later)) == (line + Flatten(Lines(later))) + Rest(later);
    }
  }

  function Pieced(lines: seq<Text>, rest: Text): Pieces {
    if lines == [] then End(rest) else Line(lines[0], Pieced(lines[1..], rest))
  }

  lemma {:induction false} PiecedFacts(lines: seq<Text>, rest: Text)
    requires (forall line :: line in lines ==> EndsAtNewline(line)) && '\n' !in rest
    ensures var p := Pieced(lines, rest);
            CutAtNewlines(p) && Glue(p) == Flatten(lines) + rest && Lines(p) == lines && Rest(p) == rest
  {
    if lines == [] {
      assert "" + rest == rest;
    } else {
      assert lines[0] in lines;
      PiecedFacts(lines[1..], rest);
      assert lines[0] + (Flatten(lines[1..]) + rest) == (lines[0] + Flatten(lines[1..])) + rest;
    }
  }

  // Main result: the lines and the rest of a stream are the one way to split it at its newlines.
  lemma SplitIffCut(lines: seq<Text>, rest: Text, s: Text)
    ensures Splits(lines, rest, s) <==> lines == Lines(Cut(s)) && rest == Rest(Cut(s))
  {
    hide Cut, Flatten, EndsAtNewline;
    CutIsFaithful(s);
    PiecesSplit(Cut(s));
    if Splits(lines, rest, s) {
      PiecedFacts(lines, rest);
      CutIsUnique(Pieced(lines, rest));
    }
  }

  // More bytes continue the rest and leave the lines alone.
  function Continue(p: Pieces, more: Text): Pieces {
    match p
    case End(rest) => Cut(rest + more)
    case Line(line, later) => Line(line, Continue(later, more))
  }

  // Main result: cutting a longer stream is cutting the shorter one and continuing its rest.
  lemma {:induction false} CutContinues(s: Text, more: Text)
    ensures Cut(s + more) == Continue(Cut(s), more)
    decreases |s|
  {
    hide NewlineAt;
    var n := NewlineAt(s) + 1;
    if n > 0 {
      NewlineFacts(s);
      assert (s + more)[..n - 1] == s[..n - 1] && (s + more)[..n] == s[..n] && (s + more)[n..] == s[n..] + more;
      NewlineIsAt(s + more, n - 1);
      CutContinues(s[n..], more);
    }
  }

  lemma {:induction false} ContinueAppends(p: Pieces, more: Text)
    ensures Lines(Continue(p, more)) == Lines(p) + Lines(Cut(Rest(p) + more))
    ensures Rest(Continue(p, more)) == Rest(Cut(Rest(p) + more))
  {
    hide Cut;
    if p.Line? {
      ContinueAppends(p.later, more);
      assert [p.line] + (Lines(p.later) + Lines(Cut(Rest(p) + more))) == Lines(p) + Lines(Cut(Rest(p) + more));
    } else {
      assert [] + Lines(Cut(p.rest + more)) == Lines(Cut(p.rest + more));
    }
  }

  class JsonClientConnection {
    var receiveBuffer: Text
    // The messages handed to the JSON API, and all bytes that ever arrived.
    var handled: seq<Text>
    ghost var received: Text

    constructor ()
      ensures Valid() && received == ""
    {
      receiveBuffer, handled, received := "", [], "";
    }

    // However the stream was cut into reads: exactly its lines were handled, the rest is kept.
    ghost predicate Valid()
      reads this
    {
      handled == Lines(Cut(received)) && receiveBuffer == Rest(Cut(received))
    }

    method ReadRequest(chunk: Text)
      requires Valid()
      modifies this
      ensures Valid() && received == old(received) + chunk
      ensures Splits(handled, receiveBuffer, received)
    {
      hide NewlineAt;
      CutContinues(received, chunk);
      ContinueAppends(Cut(received), chunk);
      received := received + chunk;
      receiveBuffer := receiveBuffer + chunk;
      var bytes := NewlineAt(receiveBuffer) + 1;
      while bytes > 0
        invariant bytes == NewlineAt(receiveBuffer) + 1 && received == old(received) + chunk
        invariant handled + Lines(Cut(receiveBuffer)) == Lines(Cut(received))
        invariant Rest(Cut(receiveBuffer)) == Rest(Cut(received))
        decreases |receiveBuffer|
      {
        var message := receiveBuffer[..bytes];
        assert handled + ([message] + Lines(Cut(receiveBuffer[bytes..]))) ==
               handled + [message] + Lines(Cut(receiveBuffer[bytes..]));
        receiveBuffer := receiveBuffer[bytes..];
        handled := handled + [message];
        bytes := NewlineAt(receiveBuffer) + 1;
      }
      assert handled + [] == handled;
      SplitIffCut(handled, receiveBuffer, received);
    }
  }
}
