/**
  Picking one block out of a PEM text, line by line, and decoding its body (`sgp26.rs`).

  `name` stands for what the source calls a block's label.
 */
module Pem {
  import opened Bytes
  import Base64

  const BEGIN: string := "-----BEGIN "
  const END: string := "-----END "
  const DASHES: string := "-----"

  // ---------- lines ----------

  function NewlineAt(text: string): (i: nat)
    ensures i <= |text|
    ensures i < |text| ==> text[i] == '\n'
    ensures forall k :: 0 <= k < i ==> text[k] != '\n'
  {
    if text == "" || text[0] == '\n' then 0 else 1 + NewlineAt(text[1..])
  }

  function StripCarriageReturn(s: string): string {
    if s != "" && s[|s| - 1] == '\r' then s[..|s| - 1] else s
  }

  /** The lines of a text; the last one needs no terminator. */
  function Lines(text: string): seq<string>
    decreases |text|
  {
    var i := NewlineAt(text);
    if text == "" then []
    else if i == |text| then [text]
    else [StripCarriageReturn(text[..i])] + Lines(text[i + 1..])
  }

  function Joined(lines: seq<string>): string {
    if lines == [] then "" else lines[0] + "\n" + Joined(lines[1..])
  }

  lemma {:induction false} LinesUndoJoining(lines: seq<string>)
    requires forall i :: 0 <= i < |lines| ==> '\n' !in lines[i] && StripCarriageReturn(lines[i]) == lines[i]
    ensures Lines(Joined(lines)) == lines
  {
    if lines != [] {
      var text := Joined(lines);
      var n := |lines[0]|;
      assert text[n] == '\n' && text[..n] == lines[0] && text[n + 1..] == Joined(lines[1..]);
      assert NewlineAt(text) == n by {
        assert forall k :: 0 <= k < n ==> text[k] == lines[0][k];
      }
      LinesUndoJoining(lines[1..]);
    }
  }

  /** A line and what ends it. */
  datatype Ended = Ended(line: string, end: string)

  function Layout(es: seq<Ended>): string {
    if es == [] then "" else es[0].line + es[0].end + Layout(es[1..])
  }

  function LinesOf(es: seq<Ended>): (r: seq<string>)
    ensures |r| == |es|
  {
    seq(|es|, i requires 0 <= i < |es| => es[i].line)
  }

  /**
    Each line ends in a line feed, with a carriage return before it or without, and without one it has
    none of its own at its end. The last line may end with the text instead, if it is not empty.
   */
  predicate IsLine(e: Ended, last: bool) {
    && '\n' !in e.line
    && (|| e.end == "\r\n"
        || (e.end == "\n" && (e.line == "" || e.line[|e.line| - 1] != '\r'))
        || (e.end == "" && last && e.line != ""))
  }

  predicate IsLayout(es: seq<Ended>) {
    forall i :: 0 <= i < |es| ==> IsLine(es[i], i == |es| - 1)
  }

  /** A text gives the lines it is made of, with either line end and in any mix, and it is made of some. */
  lemma LinesExactly(text: string, lines: seq<string>)
    ensures Lines(text) == lines <==> exists es :: IsLayout(es) && text == Layout(es) && lines == LinesOf(es)
  {
    forall es | IsLayout(es)
      ensures Lines(Layout(es)) == LinesOf(es)
    {
      LayoutIsSplit(es);
    }
    var es := SomeLayout(text);
  }

  lemma {:induction false} LayoutIsSplit(es: seq<Ended>)
    requires IsLayout(es)
    ensures Lines(Layout(es)) == LinesOf(es)
  {
    if es != [] {
      var line, end, rest := es[0].line, es[0].end, Layout(es[1..]);
      TailIsLayout(es);
      LayoutIsSplit(es[1..]);
      FirstLine(line, end, rest);
      assert LinesOf(es) == [line] + LinesOf(es[1..]);
    }
  }

  lemma TailIsLayout(es: seq<Ended>)
    requires IsLayout(es) && es != []
    ensures IsLine(es[0], Layout(es[1..]) == "") && IsLayout(es[1..])
  {
    forall i | 0 <= i < |es| - 1
      ensures IsLine(es[1..][i], i == |es| - 2)
    {
      assert IsLine(es[i + 1], i + 1 == |es| - 1);
    }
    assert IsLine(es[0], |es| == 1);
  }

  lemma FirstLine(line: string, end: string, rest: string)
    requires IsLine(Ended(line, end), rest == "")
    ensures Lines(line + end + rest) == [line] + Lines(rest)
  {
    if end == "" {
      assert line + end + rest == line;
      NewlineIsAt(line, |line|);
    } else if end == "\n" {
      SplitAt(line, rest);
    } else {
      SplitAtCarriageReturn(line, rest);
    }
  }

  lemma SplitAtCarriageReturn(line: string, rest: string)
    requires '\n' !in line
    ensures Lines(line + "\r\n" + rest) == [line] + Lines(rest)
  {
    SplitAt(line + "\r", rest);
    assert line + "\r\n" == line + "\r" + "\n";
    assert (line + "\r")[..|line|] == line;
  }

  lemma SplitAt(front: string, rest: string)
    requires '\n' !in front
    ensures Lines(front + "\n" + rest) == [StripCarriageReturn(front)] + Lines(rest)
  {
    var text := front + "\n" + rest;
    assert forall k :: 0 <= k < |front| ==> text[k] == front[k];
    NewlineIsAt(text, |front|);
    assert text[..|front|] == front && text[|front| + 1..] == rest;
  }

  lemma NewlineIsAt(text: string, n: nat)
    requires n <= |text| && forall k :: 0 <= k < n ==> text[k] != '\n'
    requires n < |text| ==> text[n] == '\n'
    ensures NewlineAt(text) == n
  {
  }

  lemma {:induction false} SomeLayout(text: string) returns (es: seq<Ended>)
    ensures IsLayout(es) && text == Layout(es)
    decreases |text|
  {
    var n := NewlineAt(text);
    if text == "" {
      es := [];
    } else if n == |text| {
      es := [Ended(text, "")];
      assert es[1..] == [] && text + "" + "" == text;
    } else {
      var front := text[..n];
      var tail := SomeLayout(text[n + 1..]);
      var first :=
        if front != "" && front[|front| - 1] == '\r' then Ended(front[..|front| - 1], "\r\n") else Ended(front, "\n");
      es := [first] + tail;
      assert es[1..] == tail;
      assert first.line + first.end == front + "\n";
      assert text == front + "\n" + text[n + 1..];
      assert IsLine(first, false);
      assert forall i :: 1 <= i < |es| ==> es[i] == tail[i - 1];
    }
  }

  // ---------- what a line is ----------

  /** Unicode's White_Space property. */
  predicate IsWhitespace(c: char) {
    var v := c as int;
    || 0x09 <= v <= 0x0D || v == 0x20 || v == 0x85 || v == 0xA0 || v == 0x1680 || 0x2000 <= v <= 0x200A
    || v == 0x2028 || v == 0x2029 || v == 0x202F || v == 0x205F || v == 0x3000
  }

  function TrimStart(s: string): string {
    if s != "" && IsWhitespace(s[0]) then TrimStart(s[1..]) else s
  }

  function TrimEnd(s: string): string {
    if s != "" && IsWhitespace(s[|s| - 1]) then TrimEnd(s[..|s| - 1]) else s
  }

  function Trim(s: string): string {
    TrimEnd(TrimStart(s))
  }

  function TrimDashes(s: string): string {
    if s != "" && s[|s| - 1] == '-' then TrimDashes(s[..|s| - 1]) else s
  }

  datatype Mark = Begin(name: string) | End(name: string) | Text(text: string)

  function Classify(line: string): Mark {
    var t := Trim(line);
    if BEGIN <= t then Begin(Trim(TrimDashes(t[|BEGIN|..])))
    else if END <= t then End(Trim(TrimDashes(t[|END|..])))
    else Text(t)
  }

  /** The 25 characters that are trimmed. */
  lemma WhitespaceIsTrimmed(c: char)
    ensures IsWhitespace(c) <==>
            c as int in {0x09, 0x0A, 0x0B, 0x0C, 0x0D, 0x20, 0x85, 0xA0, 0x1680,
                         0x2000, 0x2001, 0x2002, 0x2003, 0x2004, 0x2005, 0x2006, 0x2007, 0x2008, 0x2009, 0x200A,
                         0x2028, 0x2029, 0x202F, 0x205F, 0x3000}
  {
  }

  predicate AllWhitespace(s: string) {
    forall i :: 0 <= i < |s| ==> IsWhitespace(s[i])
  }

  /** `t` is `s` between whitespace, and neither begins nor ends in any. */
  ghost predicate IsTrimmed(s: string, t: string) {
    && (t != "" ==> !IsWhitespace(t[0]) && !IsWhitespace(t[|t| - 1]))
    && exists a, b :: AllWhitespace(a) && AllWhitespace(b) && s == a + t + b
  }

  lemma TrimExactly(s: string, t: string)
    ensures Trim(s) == t <==> IsTrimmed(s, t)
  {
    TrimIsTrimmed(s);
    forall a, b | AllWhitespace(a) && AllWhitespace(b) && s == a + t + b
      ensures (t != "" ==> !IsWhitespace(t[0]) && !IsWhitespace(t[|t| - 1])) ==> Trim(s) == t
    {
      if t != "" ==> !IsWhitespace(t[0]) && !IsWhitespace(t[|t| - 1]) {
        TrimmedFront(a, t, b);
        TrimmedEnd(t, b);
      }
    }
  }

  lemma {:induction false} TrimmedFront(a: string, t: string, b: string)
    requires AllWhitespace(a) && AllWhitespace(b) && (t != "" ==> !IsWhitespace(t[0]))
    ensures TrimStart(a + t + b) == if t == "" then "" else t + b
    decreases |a| + |b|
  {
    if a != "" {
      assert (a + t + b)[1..] == a[1..] + t + b;
      TrimmedFront(a[1..], t, b);
    } else if t == "" && b != "" {
      assert a + t + b == b && b[1..] + t + "" == b[1..];
      TrimmedFront(b[1..], t, "");
    } else {
      assert a + t + b == t + b;
    }
  }

  lemma {:induction false} TrimmedEnd(t: string, b: string)
    requires AllWhitespace(b) && (t != "" ==> !IsWhitespace(t[|t| - 1]))
    ensures TrimEnd(t + b) == t
    decreases |b|
  {
    if b == "" {
      assert t + b == t;
    } else {
      assert (t + b)[..|t + b| - 1] == t + b[..|b| - 1];
      TrimmedEnd(t, b[..|b| - 1]);
    }
  }

  lemma TrimIsTrimmed(s: string)
    ensures IsTrimmed(s, Trim(s))
  {
    var a := StartIsTrimmed(s);
    var b := EndIsTrimmed(TrimStart(s));
    assert s == a + Trim(s) + b;
  }

  lemma {:induction false} StartIsTrimmed(s: string) returns (a: string)
    ensures AllWhitespace(a) && s == a + TrimStart(s)
    ensures TrimStart(s) != "" ==> !IsWhitespace(TrimStart(s)[0])
  {
    if s != "" && IsWhitespace(s[0]) {
      var a' := StartIsTrimmed(s[1..]);
      a := [s[0]] + a';
    } else {
      a := "";
    }
  }

  lemma {:induction false} EndIsTrimmed(s: string) returns (b: string)
    ensures AllWhitespace(b) && s == TrimEnd(s) + b
    ensures TrimEnd(s) != "" ==> !IsWhitespace(TrimEnd(s)[|TrimEnd(s)| - 1]) && TrimEnd(s)[0] == s[0]
  {
    if s != "" && IsWhitespace(s[|s| - 1]) {
      var b' := EndIsTrimmed(s[..|s| - 1]);
      b := b' + [s[|s| - 1]];
      assert s == s[..|s| - 1] + [s[|s| - 1]];
    } else {
      b := "";
    }
  }

  /** `s` is the prefix, then `inner`, which does not end in a dash, then dashes. */
  ghost predicate IsDashed(s: string, prefix: string, inner: string) {
    && (inner == "" || inner[|inner| - 1] != '-')
    && exists n: nat :: s == prefix + inner + Dashes(n)
  }

  function Dashes(n: nat): (r: string)
    ensures |r| == n
  {
    seq(n, _ => '-')
  }

  lemma DashedExactly(s: string, prefix: string, inner: string)
    ensures IsDashed(s, prefix, inner) <==> prefix <= s && TrimDashes(s[|prefix|..]) == inner
  {
    forall n: nat | s == prefix + inner + Dashes(n) && (inner == "" || inner[|inner| - 1] != '-')
      ensures prefix <= s && TrimDashes(s[|prefix|..]) == inner
    {
      assert s[|prefix|..] == inner + Dashes(n);
      DashesAreTrimmed(inner, n);
    }
    if prefix <= s {
      var n := DashesAtEnd(s[|prefix|..]);
      assert s == prefix + s[|prefix|..];
      assert s == prefix + TrimDashes(s[|prefix|..]) + Dashes(n);
    }
  }

  lemma {:induction false} DashesAtEnd(s: string) returns (n: nat)
    ensures s == TrimDashes(s) + Dashes(n)
    ensures TrimDashes(s) == "" || TrimDashes(s)[|TrimDashes(s)| - 1] != '-'
  {
    if s != "" && s[|s| - 1] == '-' {
      var n' := DashesAtEnd(s[..|s| - 1]);
      n := n' + 1;
      assert s == s[..|s| - 1] + "-" && Dashes(n) == Dashes(n') + "-";
    } else {
      n := 0;
    }
  }

  lemma {:induction false} DashesAreTrimmed(s: string, n: nat)
    requires s == "" || s[|s| - 1] != '-'
    ensures TrimDashes(s + Dashes(n)) == s
  {
    if n == 0 {
      assert s + Dashes(n) == s;
    } else {
      var t := s + Dashes(n);
      assert t[..|t| - 1] == s + Dashes(n - 1);
      DashesAreTrimmed(s, n - 1);
    }
  }

  /**
    What a line is, for every line: between whitespace, a BEGIN or an END with a name between
    whitespace and before any number of dashes, or text.
   */
  lemma ClassifyExactly(line: string, name: string)
    ensures Classify(line) == Begin(name) <==>
            exists t, inner :: IsTrimmed(line, t) && IsDashed(t, "-----BEGIN ", inner) && IsTrimmed(inner, name)
    ensures Classify(line) == End(name) <==>
            exists t, inner :: IsTrimmed(line, t) && IsDashed(t, "-----END ", inner) && IsTrimmed(inner, name)
    ensures Classify(line) == Text(name) <==>
            IsTrimmed(line, name) && !("-----BEGIN " <= name) && !("-----END " <= name)
  {
    TrimExactly(line, name);
    forall t
      ensures IsTrimmed(line, t) <==> t == Trim(line)
    {
      TrimExactly(line, t);
    }
    var t := Trim(line);
    forall inner
      ensures IsDashed(t, "-----BEGIN ", inner) <==> BEGIN <= t && inner == TrimDashes(t[|BEGIN|..])
      ensures IsDashed(t, "-----END ", inner) <==> END <= t && inner == TrimDashes(t[|END|..])
      ensures IsTrimmed(inner, name) <==> name == Trim(inner)
    {
      DashedExactly(t, BEGIN, inner);
      DashedExactly(t, END, inner);
      TrimExactly(inner, name);
    }
    assert BEGIN[5] != END[5];
  }

  function Marks(lines: seq<string>): (r: seq<Mark>)
    ensures |r| == |lines|
  {
    seq(|lines|, i requires 0 <= i < |lines| => Classify(lines[i]))
  }

  // ---------- the state machine ----------

  datatype Block = Block(name: string, body: string)

  datatype State = State(blocks: seq<Block>, open: Option<string>, body: string)

  function Step(s: State, m: Mark): Result<State> {
    match m
    case Begin(name) => Ok(State(s.blocks, Some(name), ""))
    case End(name) =>
      (match s.open
       case None => Ok(s)
       case Some(start) =>
         if start != name then Err(Certificate) else Ok(State(s.blocks + [Block(start, s.body)], None, "")))
    case Text(t) => if s.open.Some? then Ok(s.(body := s.body + t)) else Ok(s)
  }

  function RunFrom(s: State, marks: seq<Mark>): Result<State> {
    if marks == [] then Ok(s)
    else
      var before :- RunFrom(s, marks[..|marks| - 1]);
      Step(before, marks[|marks| - 1])
  }

  const START: State := State([], None, "")

  function FirstNamed(blocks: seq<Block>, name: string): Option<Block> {
    if blocks == [] then None
    else if blocks[0].name == name then Some(blocks[0])
    else FirstNamed(blocks[1..], name)
  }

  /** The block asked for: the first with a name, or the last. */
  function Chosen(blocks: seq<Block>, want: Option<string>): Result<Block> {
    match want
    case Some(name) =>
      (match FirstNamed(blocks, name)
       case Some(b) => Ok(b)
       case None => Err(Certificate))
    case None => if blocks == [] then Err(Certificate) else Ok(blocks[|blocks| - 1])
  }

  function BlockDecoded(lines: seq<string>, want: Option<string>): Result<bytes> {
    var s :- RunFrom(START, Marks(lines));
    var b :- Chosen(s.blocks, want);
    Base64.Decoded(b.body)
  }

  method PemBlockToDer(text: string, want: Option<string>) returns (r: Result<bytes>)
    ensures r == BlockDecoded(Lines(text), want)
  {
    var blocks: seq<Block> := [];
    var open: Option<string> := None;
    var body: string := "";
    var lines := Lines(text);
    ghost var marks := Marks(lines);
    for i := 0 to |lines|
      invariant RunFrom(START, marks[..i]) == Ok(State(blocks, open, body))
    {
      RunOneMark(START, marks, i);
      match Classify(lines[i]) {
        case Begin(name) =>
          open := Some(name);
          body := "";
        case End(name) =>
          if open.Some? {
            var start := open.value;
            open := None;
            if start != name {
              RunFailsEarly(START, marks, i + 1);
              return Err(Certificate);
            }
            blocks := blocks + [Block(start, body)];
            body := "";
          }
        case Text(line) =>
          if open.Some? {
            body := body + line;
          }
      }
    }
    assert marks[..|lines|] == marks;
    var chosen :- Chosen(blocks, want);
    r := Base64.Base64Decode(chosen.body);
  }

  // ---------- runs ----------

  lemma RunOneMark(s: State, marks: seq<Mark>, i: nat)
    requires i < |marks| && RunFrom(s, marks[..i]).Ok?
    ensures RunFrom(s, marks[..i + 1]) == Step(RunFrom(s, marks[..i]).value, marks[i])
  {
    assert marks[..i + 1][..i] == marks[..i];
  }

  lemma {:induction false} RunFailsEarly(s: State, marks: seq<Mark>, k: nat)
    requires k <= |marks| && RunFrom(s, marks[..k]).Err?
    ensures RunFrom(s, marks) == Err(Certificate)
    decreases |marks|
  {
    if k < |marks| {
      var n := |marks| - 1;
      assert marks[..n][..k] == marks[..k];
      RunFailsEarly(s, marks[..n], k);
    } else {
      assert marks[..k] == marks;
      RunFailsWithCertificate(s, marks);
    }
  }

  lemma {:induction false} RunFailsWithCertificate(s: State, marks: seq<Mark>)
    ensures RunFrom(s, marks).Err? ==> RunFrom(s, marks) == Err(Certificate)
  {
    if marks != [] {
      RunFailsWithCertificate(s, marks[..|marks| - 1]);
    }
  }

  lemma {:induction false} RunOfConcat(s: State, a: seq<Mark>, b: seq<Mark>)
    requires RunFrom(s, a).Ok?
    ensures RunFrom(s, a + b) == RunFrom(RunFrom(s, a).value, b)
    decreases |b|
  {
    if b == [] {
      assert a + b == a;
    } else {
      var n := |b| - 1;
      assert (a + b)[..|a| + n] == a + b[..n];
      RunOfConcat(s, a, b[..n]);
    }
  }

  /** Where the block that is open after `marks` began. */
  function OpenAt(marks: seq<Mark>): (r: Option<nat>)
    ensures r.Some? ==> r.value < |marks| && marks[r.value].Begin?
  {
    if marks == [] then None
    else
      var n := |marks| - 1;
      match marks[n]
      case Begin(_) => Some(n)
      case End(_) => None
      case Text(_) => OpenAt(marks[..n])
  }

  /** An END line that closes a block of another name. */
  ghost predicate IsMismatch(marks: seq<Mark>, i: nat, k: nat) {
    && i < k < |marks|
    && marks[i].Begin? && marks[k].End? && marks[i].name != marks[k].name
    && forall j :: i < j < k ==> marks[j].Text?
  }

  lemma {:induction false} OpenAtIsLastBegin(marks: seq<Mark>, i: nat)
    ensures OpenAt(marks) == Some(i) <==>
            i < |marks| && marks[i].Begin? && forall j :: i < j < |marks| ==> marks[j].Text?
  {
    if marks != [] {
      var n := |marks| - 1;
      OpenAtIsLastBegin(marks[..n], i);
      if marks[n].Text? {
        assert i < n && marks[i].Begin? && (forall j :: i < j < |marks| ==> marks[j].Text?) ==>
            marks[..n][i].Begin? && forall j :: i < j < n ==> marks[..n][j].Text?;
      }
    }
  }

  lemma {:induction false} OpenIsWhatTheRunHolds(marks: seq<Mark>)
    requires RunFrom(START, marks).Ok?
    ensures var open := RunFrom(START, marks).value.open;
            && (open.Some? <==> OpenAt(marks).Some?)
            && (open.Some? ==> open.value == marks[OpenAt(marks).value].name)
  {
    if marks != [] {
      OpenIsWhatTheRunHolds(marks[..|marks| - 1]);
    }
  }

  /**
    The line walk fails exactly when some END line names another block than the BEGIN line it
    closes, wherever that is and whatever else the text holds.
   */
  lemma {:induction false} RunFailsExactlyOnMismatch(marks: seq<Mark>)
    ensures RunFrom(START, marks).Err? <==> exists i, k :: IsMismatch(marks, i, k)
  {
    if marks != [] {
      var n := |marks| - 1;
      var front := marks[..n];
      RunFailsExactlyOnMismatch(front);
      assert forall i: nat, k: nat :: k < n ==> IsMismatch(front, i, k) == IsMismatch(marks, i, k);
      if RunFrom(START, front).Ok? {
        OpenIsWhatTheRunHolds(front);
        if OpenAt(front).Some? {
          OpenAtIsLastBegin(front, OpenAt(front).value);
          assert RunFrom(START, marks).Err? ==> IsMismatch(marks, OpenAt(front).value, n);
        }
        forall i: nat | IsMismatch(marks, i, n)
          ensures OpenAt(front) == Some(i)
        {
          OpenAtIsLastBegin(front, i);
        }
      }
    }
  }

  // ---------- the blocks of a run ----------

  /** BEGIN line `i` is closed by END line `k`: the same name, and only text between them. */
  ghost predicate IsClosed(marks: seq<Mark>, i: nat, k: nat) {
    && i < k < |marks|
    && marks[i].Begin? && marks[k].End? && marks[i].name == marks[k].name
    && forall j :: i < j < k ==> marks[j].Text?
  }

  /** The text lines after line `i` and before line `k`, joined. */
  function TextBetween(marks: seq<Mark>, i: nat, k: nat): string
    requires i < k <= |marks|
    decreases k
  {
    if k == i + 1 then ""
    else TextBetween(marks, i, k - 1) + if marks[k - 1].Text? then marks[k - 1].text else ""
  }

  /** `blocks` are those of all closed pairs of lines, in order. */
  ghost predicate AreClosedBlocks(marks: seq<Mark>, blocks: seq<Block>, pairs: seq<(nat, nat)>) {
    && |pairs| == |blocks|
    && (forall j :: 0 <= j < |pairs| ==> IsBlockOf(marks, blocks[j], pairs[j]))
    && (forall i, j :: 0 <= i < j < |pairs| ==> pairs[i].1 < pairs[j].1)
    && forall i: nat, k: nat :: IsClosed(marks, i, k) ==> (i, k) in pairs
  }

  ghost predicate IsBlockOf(marks: seq<Mark>, block: Block, pair: (nat, nat)) {
    IsClosed(marks, pair.0, pair.1) && block == Block(marks[pair.0].name, TextBetween(marks, pair.0, pair.1))
  }

  /**
    A walk that does not fail has collected a block for every BEGIN line that an END line closes with
    only text between, in order, and no others: a BEGIN line that another follows is dropped.
   */
  lemma {:induction false} BlocksAreClosedPairs(marks: seq<Mark>) returns (pairs: seq<(nat, nat)>)
    requires RunFrom(START, marks).Ok?
    ensures AreClosedBlocks(marks, RunFrom(START, marks).value.blocks, pairs)
    ensures OpenAt(marks).Some? ==>
              RunFrom(START, marks).value.body == TextBetween(marks, OpenAt(marks).value, |marks|)
  {
    if marks == [] {
      pairs := [];
    } else {
      var n := |marks| - 1;
      var front := marks[..n];
      var before := RunFrom(START, front).value;
      var pairs' := BlocksAreClosedPairs(front);
      OpenIsWhatTheRunHolds(front);
      forall i: nat
        ensures IsClosed(marks, i, n) <==> OpenAt(front) == Some(i) && marks[n] == End(marks[i].name)
      {
        OpenAtIsLastBegin(front, i);
      }
      EarlierBlocksStay(marks, before.blocks, pairs');
      if OpenAt(front).Some? {
        TextBetweenStays(marks, OpenAt(front).value, n);
      }
      if OpenAt(front).Some? && marks[n].End? {
        pairs := pairs' + [(OpenAt(front).value, n)];
        assert IsBlockOf(marks, Block(marks[OpenAt(front).value].name, before.body), (OpenAt(front).value, n));
      } else {
        pairs := pairs';
      }
    }
  }

  lemma {:induction false} TextBetweenStays(marks: seq<Mark>, i: nat, k: nat)
    requires i < k < |marks|
    ensures TextBetween(marks[..|marks| - 1], i, k) == TextBetween(marks, i, k)
    decreases k
  {
    if k > i + 1 {
      TextBetweenStays(marks, i, k - 1);
    }
  }

  /** One more line leaves the pairs before it, and their blocks, as they are. */
  lemma EarlierBlocksStay(marks: seq<Mark>, blocks: seq<Block>, pairs: seq<(nat, nat)>)
    requires marks != [] && AreClosedBlocks(marks[..|marks| - 1], blocks, pairs)
    ensures forall j :: 0 <= j < |pairs| ==> IsBlockOf(marks, blocks[j], pairs[j]) && pairs[j].1 < |marks| - 1
    ensures forall i: nat, k: nat :: IsClosed(marks, i, k) && k < |marks| - 1 ==> (i, k) in pairs
  {
    var front := marks[..|marks| - 1];
    forall j | 0 <= j < |pairs|
      ensures IsBlockOf(marks, blocks[j], pairs[j]) && pairs[j].1 < |marks| - 1
    {
      assert IsBlockOf(front, blocks[j], pairs[j]);
      TextBetweenStays(marks, pairs[j].0, pairs[j].1);
    }
    forall i: nat, k: nat | IsClosed(marks, i, k) && k < |marks| - 1
      ensures (i, k) in pairs
    {
      assert IsClosed(front, i, k);
    }
  }

  // ---------- round trip ----------

  /**
    One block as it may be written: other lines before it, its name, the octets, and the lines
    their base64 encoding is broken into.
   */
  datatype Source = Source(before: seq<string>, name: string, data: bytes, wrapped: seq<string>)

  function Flat(lines: seq<string>): string {
    if lines == [] then "" else Flat(lines[..|lines| - 1]) + lines[|lines| - 1]
  }

  /** A name that survives the trimming of its line. */
  predicate IsCleanName(name: string) {
    Trim(name) == name && (name == "" || name[|name| - 1] != '-')
  }

  predicate AreOtherLines(lines: seq<string>) {
    forall i :: 0 <= i < |lines| ==> Classify(lines[i]).Text?
  }

  predicate IsRendering(src: Source) {
    AreOtherLines(src.before) && IsCleanName(src.name) && Flat(src.wrapped) == Base64.Encoded(src.data)
  }

  function BeginLine(name: string): string {
    BEGIN + name + DASHES
  }

  function EndLine(name: string): string {
    END + name + DASHES
  }

  function Rendered(src: Source): seq<string> {
    src.before + [BeginLine(src.name)] + src.wrapped + [EndLine(src.name)]
  }

  /** A whole document: the blocks in order, and other lines at the end. */
  function Document(sources: seq<Source>, after: seq<string>): seq<string> {
    if sources == [] then after else Rendered(sources[0]) + Document(sources[1..], after)
  }

  lemma NothingToTrim(s: string)
    requires s == "" || (!IsWhitespace(s[0]) && !IsWhitespace(s[|s| - 1]))
    ensures Trim(s) == s
  {
  }

  lemma NameLinesReadBack(name: string)
    requires IsCleanName(name)
    ensures Classify(BeginLine(name)) == Begin(name)
    ensures Classify(EndLine(name)) == End(name)
  {
    assert DASHES == Dashes(5);
    DashesAreTrimmed(name, 5);
    var b, e := BeginLine(name), EndLine(name);
    NothingToTrim(b);
    NothingToTrim(e);
    assert b[|BEGIN|..] == name + DASHES && e[|END|..] == name + DASHES;
    assert e[5] == 'E' && BEGIN[5] == 'B';
  }

  /** A line of base64 characters is text, and trimming leaves it alone. */
  lemma SymbolLineIsText(line: string)
    requires Base64.AllAccepted(line)
    ensures Classify(line) == Text(line)
  {
    assert forall c :: Base64.IsAccepted(c) ==> !IsWhitespace(c) && c != '-';
    NothingToTrim(line);
    assert line != "" ==> Base64.IsAccepted(line[0]);
    assert BEGIN[0] == '-' && END[0] == '-';
  }

  lemma {:induction false} FlatIsAccepted(lines: seq<string>)
    requires Base64.AllAccepted(Flat(lines))
    ensures forall i :: 0 <= i < |lines| ==> Base64.AllAccepted(lines[i])
  {
    if lines != [] {
      var n := |lines| - 1;
      var front := Flat(lines[..n]);
      assert forall i :: 0 <= i < |front| ==> front[i] == Flat(lines)[i];
      assert forall i :: 0 <= i < |lines[n]| ==> lines[n][i] == Flat(lines)[|front| + i];
      FlatIsAccepted(lines[..n]);
    }
  }

  lemma {:induction false} OtherLinesChangeNothing(blocks: seq<Block>, lines: seq<string>)
    requires AreOtherLines(lines)
    ensures RunFrom(State(blocks, None, ""), Marks(lines)) == Ok(State(blocks, None, ""))
  {
    if lines != [] {
      var n := |lines| - 1;
      assert Marks(lines)[..n] == Marks(lines[..n]);
      OtherLinesChangeNothing(blocks, lines[..n]);
    }
  }

  lemma {:induction false} BodyLinesAreCollected(blocks: seq<Block>, name: string, lines: seq<string>)
    requires forall i :: 0 <= i < |lines| ==> Base64.AllAccepted(lines[i])
    ensures RunFrom(State(blocks, Some(name), ""), Marks(lines)) == Ok(State(blocks, Some(name), Flat(lines)))
  {
    if lines != [] {
      var n := |lines| - 1;
      assert Marks(lines)[..n] == Marks(lines[..n]);
      BodyLinesAreCollected(blocks, name, lines[..n]);
      SymbolLineIsText(lines[n]);
    }
  }

  lemma MarksOfConcat(a: seq<string>, b: seq<string>)
    ensures Marks(a + b) == Marks(a) + Marks(b)
  {
  }

  /** Reading one rendered block adds it to the blocks read. */
  lemma BlockIsCollected(blocks: seq<Block>, src: Source)
    requires IsRendering(src)
    ensures RunFrom(State(blocks, None, ""), Marks(Rendered(src)))
            == Ok(State(blocks + [Block(src.name, Base64.Encoded(src.data))], None, ""))
  {
    var s0, s1 := State(blocks, None, ""), State(blocks, Some(src.name), "");
    Base64.EncodedDecodes(src.data);
    FlatIsAccepted(src.wrapped);
    NameLinesReadBack(src.name);
    OtherLinesChangeNothing(blocks, src.before);
    BodyLinesAreCollected(blocks, src.name, src.wrapped);

    var front := src.before + [BeginLine(src.name)];
    RunOneMore(s0, src.before, BeginLine(src.name));
    RunOfConcat(s0, Marks(front), Marks(src.wrapped));
    MarksOfConcat(front, src.wrapped);
    RunOneMore(s0, front + src.wrapped, EndLine(src.name));
  }

  lemma RunOneMore(s: State, lines: seq<string>, line: string)
    requires RunFrom(s, Marks(lines)).Ok?
    ensures RunFrom(s, Marks(lines + [line])) == Step(RunFrom(s, Marks(lines)).value, Classify(line))
  {
    assert Marks(lines + [line])[..|lines|] == Marks(lines);
  }

  function BlocksOf(sources: seq<Source>): (r: seq<Block>)
    ensures |r| == |sources|
  {
    seq(|sources|, i requires 0 <= i < |sources| => Block(sources[i].name, Base64.Encoded(sources[i].data)))
  }

  lemma {:induction false} DocumentIsCollected(blocks: seq<Block>, sources: seq<Source>, after: seq<string>)
    requires AreOtherLines(after) && forall i :: 0 <= i < |sources| ==> IsRendering(sources[i])
    ensures RunFrom(State(blocks, None, ""), Marks(Document(sources, after)))
            == Ok(State(blocks + BlocksOf(sources), None, ""))
    decreases |sources|
  {
    if sources == [] {
      OtherLinesChangeNothing(blocks, after);
      assert blocks + BlocksOf(sources) == blocks;
    } else {
      var first, rest := Rendered(sources[0]), Document(sources[1..], after);
      var blocks' := blocks + [Block(sources[0].name, Base64.Encoded(sources[0].data))];
      BlockIsCollected(blocks, sources[0]);
      MarksOfConcat(first, rest);
      RunOfConcat(State(blocks, None, ""), Marks(first), Marks(rest));
      DocumentIsCollected(blocks', sources[1..], after);
      BlocksOfFirst(blocks, sources);
    }
  }

  lemma BlocksOfFirst(blocks: seq<Block>, sources: seq<Source>)
    requires sources != []
    ensures blocks + [Block(sources[0].name, Base64.Encoded(sources[0].data))] + BlocksOf(sources[1..])
            == blocks + BlocksOf(sources)
  {
  }

  /** Source `i` is the first with the name. */
  predicate IsFirstNamed(sources: seq<Source>, name: string, i: nat) {
    i < |sources| && sources[i].name == name && forall j :: 0 <= j < i ==> sources[j].name != name
  }

  lemma {:induction false} FirstNamedIsExact(sources: seq<Source>, name: string, i: nat)
    ensures IsFirstNamed(sources, name, i) ==> FirstNamed(BlocksOf(sources), name) == Some(BlocksOf(sources)[i])
    ensures (forall j :: 0 <= j < |sources| ==> sources[j].name != name) ==> FirstNamed(BlocksOf(sources), name).None?
    decreases |sources|
  {
    if sources != [] {
      assert BlocksOf(sources)[1..] == BlocksOf(sources[1..]);
      if i > 0 {
        FirstNamedIsExact(sources[1..], name, i - 1);
      } else {
        FirstNamedIsExact(sources[1..], name, 0);
      }
    }
  }

  /** Source `k` is the one asked for: the last, or the first with a name. */
  predicate IsChosen(sources: seq<Source>, want: Option<string>, k: nat) {
    match want
    case None => k + 1 == |sources|
    case Some(name) => IsFirstNamed(sources, name, k)
  }

  lemma ChosenIsExact(sources: seq<Source>, want: Option<string>, k: nat)
    ensures IsChosen(sources, want, k) ==> Chosen(BlocksOf(sources), want) == Ok(BlocksOf(sources)[k])
    ensures (forall i: nat :: !IsChosen(sources, want, i)) ==> Chosen(BlocksOf(sources), want) == Err(Certificate)
  {
    match want {
      case None =>
        if sources != [] {
          assert IsChosen(sources, want, |sources| - 1);
        }
      case Some(name) =>
        FirstNamedIsExact(sources, name, k);
        if exists j :: 0 <= j < |sources| && sources[j].name == name {
          var i := SomeFirstNamed(sources, name);
        }
    }
  }

  lemma {:induction false} SomeFirstNamed(sources: seq<Source>, name: string) returns (i: nat)
    requires exists j :: 0 <= j < |sources| && sources[j].name == name
    ensures IsChosen(sources, Some(name), i)
  {
    i := 0;
    while sources[i].name != name
      invariant i < |sources| && forall j :: 0 <= j < i ==> sources[j].name != name
      decreases |sources| - i
    {
      i := i + 1;
    }
  }

  /** A line is this one with whitespace around it. */
  ghost predicate Surrounds(line: string, inner: string) {
    exists a, b :: AllWhitespace(a) && AllWhitespace(b) && line == a + inner + b
  }

  /** A text of these lines, with either line end and in any mix, and whitespace around them. */
  ghost predicate IsTextOf(text: string, lines: seq<string>) {
    exists es :: text == Layout(es) && IsLayoutOf(es, lines)
  }

  ghost predicate IsLayoutOf(es: seq<Ended>, lines: seq<string>) {
    IsLayout(es) && |es| == |lines| && forall i :: 0 <= i < |es| ==> Surrounds(es[i].line, lines[i])
  }

  lemma SurroundedIsTrimmedTheSame(line: string, inner: string)
    requires Surrounds(line, inner)
    ensures Trim(line) == Trim(inner)
  {
    var a, b :| AllWhitespace(a) && AllWhitespace(b) && line == a + inner + b;
    TrimExactly(inner, Trim(inner));
    var a', b' :| AllWhitespace(a') && AllWhitespace(b') && inner == a' + Trim(inner) + b';
    WhitespaceAround(a, a', Trim(inner), b', b);
    TrimExactly(line, Trim(inner));
  }

  lemma WhitespaceAround(a: string, a': string, t: string, b': string, b: string)
    requires AllWhitespace(a) && AllWhitespace(a') && AllWhitespace(b') && AllWhitespace(b)
    requires t != "" ==> !IsWhitespace(t[0]) && !IsWhitespace(t[|t| - 1])
    ensures IsTrimmed(a + (a' + t + b') + b, t)
  {
    assert AllWhitespace(a + a') && AllWhitespace(b' + b);
    assert a + (a' + t + b') + b == (a + a') + t + (b' + b);
  }

  lemma TextHasMarks(text: string, lines: seq<string>)
    requires IsTextOf(text, lines)
    ensures Marks(Lines(text)) == Marks(lines)
  {
    var es: seq<Ended> :| text == Layout(es) && IsLayoutOf(es, lines);
    LayoutIsSplit(es);
    forall i | 0 <= i < |es|
      ensures Classify(es[i].line) == Classify(lines[i])
    {
      SurroundedIsTrimmedTheSame(es[i].line, lines[i]);
    }
  }

  /**
    For every text of rendered blocks, whatever lines lie between them, whichever way its lines end
    and are indented: without a name the last block's octets are returned, with a name those of the
    first block that carries it, and asking for a block that is not there is an error.
   */
  lemma DocumentReadsBack(sources: seq<Source>, after: seq<string>, text: string, want: Option<string>, k: nat)
    requires AreOtherLines(after) && forall i :: 0 <= i < |sources| ==> IsRendering(sources[i])
    requires IsTextOf(text, Document(sources, after))
    ensures IsChosen(sources, want, k) ==> BlockDecoded(Lines(text), want) == Ok(sources[k].data)
    ensures (forall i: nat :: !IsChosen(sources, want, i)) ==> BlockDecoded(Lines(text), want) == Err(Certificate)
  {
    TextHasMarks(text, Document(sources, after));
    LinesReadBack(sources, after, want, k);
  }

  lemma LinesReadBack(sources: seq<Source>, after: seq<string>, want: Option<string>, k: nat)
    requires AreOtherLines(after) && forall i :: 0 <= i < |sources| ==> IsRendering(sources[i])
    ensures IsChosen(sources, want, k) ==> BlockDecoded(Document(sources, after), want) == Ok(sources[k].data)
    ensures (forall i: nat :: !IsChosen(sources, want, i)) ==>
              BlockDecoded(Document(sources, after), want) == Err(Certificate)
  {
    DocumentIsCollected([], sources, after);
    assert [] + BlocksOf(sources) == BlocksOf(sources);
    ChosenIsExact(sources, want, k);
    if k < |sources| {
      EncodedBodyDecodes(sources[k].data);
    }
  }

  lemma EncodedBodyDecodes(data: bytes)
    ensures Base64.Decoded(Base64.Encoded(data)) == Ok(data)
  {
    Base64.EncodedDecodes(data);
    Base64.StrippedOfSymbols(Base64.Encoded(data));
  }

  // ---------- the documented choice ----------

  predicate ContainsAt(s: string, part: string, i: nat) {
    i + |part| <= |s| && s[i..i + |part|] == part
  }

  ghost predicate Contains(s: string, part: string) {
    exists i: nat :: ContainsAt(s, part, i)
  }

  /** The block the source's comment asks for: the first whose name contains the wanted one. */
  ghost function FirstContaining(blocks: seq<Block>, want: string): Option<Block> {
    if blocks == [] then None
    else if Contains(blocks[0].name, want) then Some(blocks[0])
    else FirstContaining(blocks[1..], want)
  }

  /**
    The code compares names for equality. It chooses as the comment says exactly when no name
    contains the wanted one, or the first that contains it is equal to it.
   */
  lemma {:induction false} ChoiceIsDocumentedExactly(blocks: seq<Block>, want: string)
    ensures var documented := FirstContaining(blocks, want);
            FirstNamed(blocks, want) == documented <==> documented.None? || documented.value.name == want
  {
    if blocks != [] {
      assert ContainsAt(want, want, 0);
      FirstNamedHasName(blocks, want);
      ChoiceIsDocumentedExactly(blocks[1..], want);
    }
  }

  lemma {:induction false} FirstNamedHasName(blocks: seq<Block>, want: string)
    ensures FirstNamed(blocks, want).Some? ==> FirstNamed(blocks, want).value.name == want
  {
    if blocks != [] {
      FirstNamedHasName(blocks[1..], want);
    }
  }

  /** A document of one block is refused under every other name, contained in the block's or not. */
  lemma OtherNameIsRefused(src: Source, text: string, want: string)
    requires IsRendering(src) && Lines(text) == Document([src], []) && want != src.name
    ensures BlockDecoded(Lines(text), Some(want)) == Err(Certificate)
    ensures BlockDecoded(Lines(text), Some(src.name)) == Ok(src.data)
  {
    LinesReadBack([src], [], Some(want), 0);
    LinesReadBack([src], [], Some(src.name), 0);
  }

  /** An empty block as SGP.26 names the key's. */
  const EC_PRIVATE_KEY := Source([], "EC PRIVATE KEY", [], [])

  /** The file with that block alone is refused where `PRIVATE KEY` is wanted, which its name contains. */
  lemma ContainedNameIsRefused()
    ensures Contains(EC_PRIVATE_KEY.name, "PRIVATE KEY")
    ensures var text := Joined(Document([EC_PRIVATE_KEY], []));
            && BlockDecoded(Lines(text), Some("PRIVATE KEY")) == Err(Certificate)
            && BlockDecoded(Lines(text), Some(EC_PRIVATE_KEY.name)) == Ok([])
  {
    assert ContainsAt(EC_PRIVATE_KEY.name, "PRIVATE KEY", 3);
    NothingToTrim(EC_PRIVATE_KEY.name);
    EmptyBlockLines(EC_PRIVATE_KEY);
    OtherNameIsRefused(EC_PRIVATE_KEY, Joined(Document([EC_PRIVATE_KEY], [])), "PRIVATE KEY");
  }

  lemma EmptyBlockLines(src: Source)
    requires src.before == [] && src.wrapped == [] && '\n' !in src.name
    ensures Lines(Joined(Document([src], []))) == Document([src], [])
  {
    assert Document([src], []) == [BeginLine(src.name), EndLine(src.name)];
    LinesUndoJoining([BeginLine(src.name), EndLine(src.name)]);
  }
}
