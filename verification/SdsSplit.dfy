// Splitting of argument lines (sds.c) and its round trip with quoting.
module SdsSplit {
  import opened Bytes
  import opened Sequences
  import opened Options
  import opened SdsQuote

  // ------------------------------------------------- what a C string spells

  /** The end of a token: its argument and what is left of the line. */
  datatype Token = Bad | Read(arg: bytes, rest: bytes)

  /** The byte at a pointer into a C string; a NUL ends it. */
  function Head(s: bytes): u8 { if s == [] then NUL else s[0] }

  /** What may follow a closing quote. */
  predicate Closes(s: bytes) { Head(s) == NUL || IsSpace(s[0]) }

  /** The characters that end a bare word. */
  predicate IsBreak(c: u8) { c == 32 || c == 10 || c == 13 || c == 9 }

  predicate IsHexEscape(s: bytes) {
    |s| >= 4 && s[0] == BACKSLASH && s[1] == 120 && IsHexDigit(s[2]) && IsHexDigit(s[3])
  }

  function Unescape(c: u8): u8 {
    if c == 110 then 10 else if c == 114 then 13 else if c == 116 then 9 else if c == 98 then 8 else if c == 97 then 7 else c
  }

  function Glue(a: bytes, t: Token): Token {
    match t
    case Bad => Bad
    case Read(arg, rest) => Read(a + arg, rest)
  }

  /** Behind an opening double quote. */
  function Double(s: bytes): Token {
    if Head(s) == NUL then Bad
    else if IsHexEscape(s) then Glue([HexDigitToInt(s[2]) * 16 + HexDigitToInt(s[3])], Double(s[4..]))
    else if s[0] == BACKSLASH && Head(s[1..]) != NUL then Glue([Unescape(s[1])], Double(s[2..]))
    else if s[0] == QUOTE then if Closes(s[1..]) then Read([], s[1..]) else Bad
    else Glue([s[0]], Double(s[1..]))
  }

  /** Behind an opening single quote. */
  function Single(s: bytes): Token {
    if Head(s) == NUL then Bad
    else if s[0] == BACKSLASH && Head(s[1..]) == APOS then Glue([APOS], Single(s[2..]))
    else if s[0] == APOS then if Closes(s[1..]) then Read([], s[1..]) else Bad
    else Glue([s[0]], Single(s[1..]))
  }

  /** From a token's first character on: bare characters up to a blank, the end
      or a quote, and the quoted part ends the token. */
  function Bare(s: bytes): (t: Token)
    ensures t.Read? ==> |t.rest| <= |s| && (Head(s) != NUL ==> |t.rest| < |s|)
  {
    if Head(s) == NUL then Read([], s)
    else if IsBreak(s[0]) then Read([], s[1..])
    else if s[0] == QUOTE then DoubleShorter(s[1..]); Double(s[1..])
    else if s[0] == APOS then SingleShorter(s[1..]); Single(s[1..])
    else Glue([s[0]], Bare(s[1..]))
  }

  lemma {:induction false} DoubleShorter(s: bytes)
    ensures Double(s).Read? ==> |Double(s).rest| <= |s|
  {
    if Head(s) != NUL {
      if IsHexEscape(s) { DoubleShorter(s[4..]); }
      else if s[0] == BACKSLASH && Head(s[1..]) != NUL { DoubleShorter(s[2..]); }
      else if s[0] != QUOTE { DoubleShorter(s[1..]); }
    }
  }

  lemma {:induction false} SingleShorter(s: bytes)
    ensures Single(s).Read? ==> |Single(s).rest| <= |s|
  {
    if Head(s) != NUL {
      if s[0] == BACKSLASH && Head(s[1..]) == APOS { SingleShorter(s[2..]); }
      else if s[0] != APOS { SingleShorter(s[1..]); }
    }
  }

  function Skip(s: bytes): (r: bytes)
    ensures |r| <= |s|
  {
    if Head(s) != NUL && IsSpace(s[0]) then Skip(s[1..]) else s
  }

  /** The arguments of a line, or None for quotes that are not closed or not
      followed by a blank. */
  function Split(s: bytes): Option<seq<bytes>>
    decreases |s|
  {
    var t := Skip(s);
    if Head(t) == NUL then Some([])
    else
      match Bare(t)
      case Bad => None
      case Read(arg, rest) => Before([arg], Split(rest))
  }

  function Before(a: seq<bytes>, r: Option<seq<bytes>>): Option<seq<bytes>> {
    match r
    case None => None
    case Some(b) => Some(a + b)
  }

  // -------------------------------------------------------------- sdssplitargs

  function At(line: bytes, i: nat): u8 {
    if i < |line| then line[i] else NUL
  }

  /** Looking ahead in a line is looking into its rest. */
  lemma Ahead(line: bytes, p: nat)
    requires p <= |line|
    ensures At(line, p) == Head(line[p..])
    ensures p < |line| ==>
              && line[p..] != [] && line[p..][0] == line[p] && line[p..][1..] == line[p + 1..] && At(line, p + 1) == Head(line[p + 1..])
    ensures p + 1 < |line| ==> line[p..][1] == line[p + 1] && line[p..][2..] == line[p + 2..]
    ensures IsHexEscape(line[p..]) <==>
              && At(line, p) == BACKSLASH && At(line, p + 1) == 120 && IsHexDigit(At(line, p + 2)) && IsHexDigit(At(line, p + 3))
    ensures IsHexEscape(line[p..]) ==>
              && p + 4 <= |line| && line[p..][2] == line[p + 2] && line[p..][3] == line[p + 3] && line[p..][4..] == line[p + 4..]
  {}

  datatype Outcome = More | Done | Err

  /** What a turn leads to, in terms of a reading of the rest of the line. */
  ghost predicate Leads(t: Token, o: Outcome, line: bytes, p: nat, current: bytes, next: Token)
    requires p <= |line|
  {
    match o
    case Err => t == Bad
    case Done => t == Read(current, line[p..])
    case More => t == Glue(current, next)
  }

  lemma GlueGlue(a: bytes, b: bytes, t: Token)
    ensures Glue(a, Glue(b, t)) == Glue(a + b, t) && Glue(a, Read([], b)) == Read(a, b) && Glue([], t) == t
  {
    if t.Read? { Assoc(a, b, t.arg); }
  }

  predicate HexAt(line: bytes, p: nat) {
    At(line, p) == BACKSLASH && At(line, p + 1) == 120 && IsHexDigit(At(line, p + 2)) && IsHexDigit(At(line, p + 3))
  }

  predicate ClosesAt(line: bytes, p: nat) { At(line, p) == NUL || IsSpace(At(line, p)) }

  lemma DoubleAt(line: bytes, p: nat)
    requires p <= |line|
    ensures At(line, p) == NUL ==> Double(line[p..]) == Bad
    ensures HexAt(line, p) ==>
      && p + 4 <= |line|
      && Double(line[p..]) == Glue([HexDigitToInt(At(line, p + 2)) * 16 + HexDigitToInt(At(line, p + 3))], Double(line[p + 4..]))
    ensures !HexAt(line, p) && At(line, p) == BACKSLASH && At(line, p + 1) != NUL ==>
      && p + 2 <= |line|
      && Double(line[p..]) == Glue([Unescape(At(line, p + 1))], Double(line[p + 2..]))
    ensures At(line, p) == QUOTE ==>
      && p + 1 <= |line|
      && Double(line[p..]) == (if ClosesAt(line, p + 1) then Read([], line[p + 1..]) else Bad)
    ensures At(line, p) != NUL && At(line, p) != QUOTE && !(At(line, p) == BACKSLASH && At(line, p + 1) != NUL) ==>
              p + 1 <= |line| && Double(line[p..]) == Glue([At(line, p)], Double(line[p + 1..]))
  {
    Ahead(line, p);
  }

  lemma SingleAt(line: bytes, p: nat)
    requires p <= |line|
    ensures At(line, p) == NUL ==> Single(line[p..]) == Bad
    ensures At(line, p) == BACKSLASH && At(line, p + 1) == APOS ==>
      && p + 2 <= |line|
      && Single(line[p..]) == Glue([APOS], Single(line[p + 2..]))
    ensures At(line, p) == APOS ==>
      && p + 1 <= |line|
      && Single(line[p..]) == (if ClosesAt(line, p + 1) then Read([], line[p + 1..]) else Bad)
    ensures At(line, p) != NUL && At(line, p) != APOS && !(At(line, p) == BACKSLASH && At(line, p + 1) == APOS) ==>
              p + 1 <= |line| && Single(line[p..]) == Glue([At(line, p)], Single(line[p + 1..]))
  {
    Ahead(line, p);
  }

  /** One turn inside double quotes. */
  method TurnDouble(line: bytes, p0: nat, current0: bytes) returns (o: Outcome, p: nat, current: bytes)
    requires p0 <= |line|
    ensures p <= |line| && (o != Err ==> p > p0)
    ensures Leads(Glue(current0, Double(line[p0..])), o, line, p, current, Double(line[p..]))
  {
    DoubleAt(line, p0);
    hide Double, Glue, HexDigitToInt, IsHexDigit, IsSpace, At;
    p, current, o := p0, current0, More;
    if At(line, p) == BACKSLASH && At(line, p + 1) == 120 && IsHexDigit(At(line, p + 2)) && IsHexDigit(At(line, p + 3)) {
      var byte := HexDigitToInt(At(line, p + 2)) * 16 + HexDigitToInt(At(line, p + 3));
      GlueGlue(current, [byte], Double(line[p + 4..]));
      current := current + [byte];
      p := p + 3;
    } else if At(line, p) == BACKSLASH && At(line, p + 1) != NUL {
      p := p + 1;
      var e := At(line, p);
      var c := if e == 110 then 10 else if e == 114 then 13 else if e == 116 then 9 else if e == 98 then 8
               else if e == 97 then 7 else e;
      assert c == Unescape(e);
      hide Unescape;
      GlueGlue(current, [c], Double(line[p + 1..]));
      current := current + [c];
    } else if At(line, p) == QUOTE {
      if At(line, p + 1) != NUL && !IsSpace(At(line, p + 1)) {
        GlueBad(current);
        return Err, p, current;
      }
      GlueRead(current, line[p + 1..]);
      o := Done;
    } else if At(line, p) == NUL {
      GlueBad(current);
      return Err, p, current;
    } else {
      GlueGlue(current, [At(line, p)], Double(line[p + 1..]));
      current := current + [At(line, p)];
    }
    p := p + 1;
  }

  lemma GlueBad(a: bytes)
    ensures Glue(a, Bad) == Bad
  {}

  lemma GlueRead(a: bytes, rest: bytes)
    ensures Glue(a, Read([], rest)) == Read(a, rest)
  {
    assert a + [] == a;
  }

  /** One turn inside single quotes. */
  method TurnSingle(line: bytes, p0: nat, current0: bytes) returns (o: Outcome, p: nat, current: bytes)
    requires p0 <= |line|
    ensures p <= |line| && (o != Err ==> p > p0)
    ensures Leads(Glue(current0, Single(line[p0..])), o, line, p, current, Single(line[p..]))
  {
    SingleAt(line, p0);
    hide Single, Glue, At;
    p, current, o := p0, current0, More;
    if At(line, p) == BACKSLASH && At(line, p + 1) == APOS {
      p := p + 1;
      GlueGlue(current, [APOS], Single(line[p + 1..]));
      current := current + [APOS];
    } else if At(line, p) == APOS {
      if At(line, p + 1) != NUL && !IsSpace(At(line, p + 1)) {
        GlueBad(current);
        return Err, p, current;
      }
      GlueRead(current, line[p + 1..]);
      o := Done;
    } else if At(line, p) == NUL {
      GlueBad(current);
      return Err, p, current;
    } else {
      GlueGlue(current, [At(line, p)], Single(line[p + 1..]));
      current := current + [At(line, p)];
    }
    p := p + 1;
  }

  /** The reading of the rest, inside quotes or not. */
  function Inside(s: bytes, inq: bool, insq: bool): Token {
    if inq then Double(s) else if insq then Single(s) else Bare(s)
  }

  /** One turn outside quotes. */
  method TurnOutside(line: bytes, p0: nat, current0: bytes) returns (o: Outcome, p: nat, current: bytes, inq: bool, insq: bool)
    requires p0 <= |line|
    ensures p0 <= p <= |line| && o != Err && (o == More ==> p > p0) && !(inq && insq)
    ensures Leads(Glue(current0, Bare(line[p0..])), o, line, p, current, Inside(line[p..], inq, insq))
  {
    p, current, o, inq, insq := p0, current0, More, false, false;
    Ahead(line, p);
    ghost var s := line[p..];
    var c := At(line, p);
    if c == 32 || c == 10 || c == 13 || c == 9 || c == NUL {
      GlueGlue(current, s, Bad);
      if c != NUL { GlueGlue(current, s[1..], Bad); }
      o := Done;
    } else if c == QUOTE {
      inq := true;
    } else if c == APOS {
      insq := true;
    } else {
      GlueGlue(current, [c], Bare(s[1..]));
      current := current + [c];
    }
    if c != NUL { p := p + 1; }
  }

  /** One token. */
  method ReadToken(line: bytes, p0: nat) returns (ok: bool, p: nat, current: bytes)
    requires p0 <= |line| && At(line, p0) != NUL
    ensures p <= |line| && Bare(line[p0..]) == if ok then Read(current, line[p..]) else Bad
  {
    hide Double, Single, Bare;
    var inq, insq := false, false;
    p, current := p0, [];
    GlueGlue([], [], Bare(line[p..]));
    while true
      invariant p <= |line| && !(inq && insq)
      invariant Bare(line[p0..]) == Glue(current, Inside(line[p..], inq, insq))
      decreases |line| - p
    {
      var o;
      if inq {
        o, p, current := TurnDouble(line, p, current);
      } else if insq {
        o, p, current := TurnSingle(line, p, current);
      } else {
        o, p, current, inq, insq := TurnOutside(line, p, current);
      }
      if o == Err { return false, p, current; }
      if o == Done { return true, p, current; }
    }
  }

  method SkipBlanks(line: bytes, p0: nat) returns (p: nat)
    requires p0 <= |line|
    ensures p0 <= p <= |line| && line[p..] == Skip(line[p0..])
  {
    p := p0;
    Ahead(line, p);
    while At(line, p) != NUL && IsSpace(At(line, p))
      invariant p0 <= p <= |line| && Skip(line[p0..]) == Skip(line[p..]) && At(line, p) == Head(line[p..])
      decreases |line| - p
    {
      Ahead(line, p);
      p := p + 1;
      Ahead(line, p);
    }
    Ahead(line, p);
  }

  /** sdssplitargs: the arguments of the line, or NULL. */
  method SdsSplitArgs(line: bytes) returns (ok: bool, vector: seq<bytes>)
    ensures ok <==> Split(line).Some?
    ensures ok ==> vector == Split(line).value
  {
    hide Bare, Skip;
    var p := 0;
    vector := [];
    assert line[0..] == line;
    BeforeBefore([], [], Split(line));
    while true
      invariant p <= |line| && Split(line) == Before(vector, Split(line[p..]))
      decreases |line| - p
    {
      ghost var p0 := p;
      p := SkipBlanks(line, p);
      Ahead(line, p);
      if At(line, p) == NUL {
        assert vector + [] == vector;
        return true, vector;
      }
      var current;
      ok, p, current := ReadToken(line, p);
      if !ok { return false, []; }
      BeforeBefore(vector, [current], Split(line[p..]));
      vector := vector + [current];
    }
  }

  lemma BeforeBefore(a: seq<bytes>, b: seq<bytes>, r: Option<seq<bytes>>)
    ensures Before(a, Before(b, r)) == Before(a + b, r) && Before([], r) == r
  {
    if r.Some? {
      Assoc(a, b, r.value);
      assert [] + r.value == r.value;
    }
  }

  // ------------------------------------------------------------ words of a line

  /** A word: a bare part, possibly empty, and a part in quotes, if any. */
  datatype Quoted = Nothing | InDouble(arg: bytes) | InSingle(arg: bytes)

  datatype Word = Word(bare: bytes, quoted: Quoted)

  function SingleEscape(c: u8): bytes { if c == APOS then [BACKSLASH, APOS] else [c] }

  function SingleEscaped(a: bytes): bytes {
    if a == [] then [] else SingleEscape(a[0]) + SingleEscaped(a[1..])
  }

  function QuotedText(q: Quoted): bytes {
    match q
    case Nothing => []
    case InDouble(a) => Repr(a)
    case InSingle(a) => [APOS] + (SingleEscaped(a) + [APOS])
  }

  function WordText(w: Word): bytes { w.bare + QuotedText(w.quoted) }

  function WordArg(w: Word): bytes { w.bare + if w.quoted == Nothing then [] else w.quoted.arg }

  predicate IsBareChar(c: u8) { c != NUL && !IsBreak(c) && c != QUOTE && c != APOS }

  /** Single quotes cannot hold NUL or end in a backslash, a bare part cannot
      hold quotes or blanks; double quotes hold anything. */
  ghost predicate WordOk(w: Word) {
    && (forall i :: 0 <= i < |w.bare| ==> IsBareChar(w.bare[i]))
    && (w.bare != [] ==> !IsSpace(w.bare[0]))
    && match w.quoted
       case Nothing => w.bare != []
       case InDouble(_) => true
       case InSingle(a) => SingleOk(a)
  }

  ghost predicate SingleOk(a: bytes) {
    (forall i :: 0 <= i < |a| ==> a[i] != NUL) && (a != [] ==> a[|a| - 1] != BACKSLASH)
  }

  /** What may follow a word. */
  ghost predicate Follows(rest: bytes) {
    rest == [] || IsBreak(rest[0])
  }

  lemma EscapeReads(c: u8, t: bytes)
    ensures Double(Escape(c) + t) == Glue([c], Double(t))
  {
    var s := Escape(c) + t;
    assert s[|Escape(c)|..] == t;
    assert c / 16 * 16 + c % 16 == c;
  }

  lemma {:induction false} DoubleReads(a: bytes, rest: bytes)
    requires Closes(rest)
    ensures Double(Escaped(a) + ([QUOTE] + rest)) == Read(a, rest)
  {
    if a == [] {
      assert Escaped(a) + ([QUOTE] + rest) == [QUOTE] + rest && ([QUOTE] + rest)[1..] == rest;
    } else {
      DoubleReads(a[1..], rest);
      Assoc(Escape(a[0]), Escaped(a[1..]), [QUOTE] + rest);
      EscapeReads(a[0], Escaped(a[1..]) + ([QUOTE] + rest));
      assert [a[0]] + a[1..] == a;
    }
  }

  lemma {:induction false} SingleReads(a: bytes, rest: bytes)
    requires SingleOk(a) && Closes(rest)
    ensures Single(SingleEscaped(a) + ([APOS] + rest)) == Read(a, rest)
  {
    var s := SingleEscaped(a) + ([APOS] + rest);
    if a == [] {
      assert s == [APOS] + rest && s[1..] == rest;
    } else {
      var t := SingleEscaped(a[1..]) + ([APOS] + rest);
      SingleReads(a[1..], rest);
      Assoc(SingleEscape(a[0]), SingleEscaped(a[1..]), [APOS] + rest);
      assert s[|SingleEscape(a[0])|..] == t && [a[0]] + a[1..] == a;
      if a[0] == BACKSLASH {
        assert a[1..] != [];
        assert t[0] == SingleEscape(a[1])[0] != APOS;
      }
    }
  }

  lemma {:induction false} BareReads(b: bytes, s: bytes)
    requires forall i :: 0 <= i < |b| ==> IsBareChar(b[i])
    ensures Bare(b + s) == Glue(b, Bare(s))
  {
    if b == [] {
      assert b + s == s;
      GlueGlue([], [], Bare(s));
    } else {
      assert (b + s)[1..] == b[1..] + s && (b + s)[0] == b[0];
      BareReads(b[1..], s);
      GlueGlue([b[0]], b[1..], Bare(s));
      assert [b[0]] + b[1..] == b;
    }
  }

  lemma InDoubleReads(a: bytes, rest: bytes)
    requires Closes(rest)
    ensures Bare(Repr(a) + rest) == Read(a, rest)
  {
    DoubleReads(a, rest);
    hide Escaped, Double;
    assert Repr(a) + rest == [QUOTE] + (Escaped(a) + ([QUOTE] + rest));
    assert ([QUOTE] + (Escaped(a) + ([QUOTE] + rest)))[1..] == Escaped(a) + ([QUOTE] + rest);
  }

  lemma InSingleReads(a: bytes, rest: bytes)
    requires SingleOk(a) && Closes(rest)
    ensures Bare([APOS] + (SingleEscaped(a) + [APOS]) + rest) == Read(a, rest)
  {
    SingleReads(a, rest);
    hide SingleEscaped, Single, SingleOk;
    assert [APOS] + (SingleEscaped(a) + [APOS]) + rest == [APOS] + (SingleEscaped(a) + ([APOS] + rest));
    assert ([APOS] + (SingleEscaped(a) + ([APOS] + rest)))[1..] == SingleEscaped(a) + ([APOS] + rest);
  }

  /** A word in front of a blank or the end is read as its argument; a blank
      behind a bare word is read with it. */
  lemma WordReads(w: Word, rest: bytes)
    requires WordOk(w) && Follows(rest)
    ensures Bare(WordText(w) + rest) == Read(WordArg(w), if w.quoted == Nothing && rest != [] then rest[1..] else rest)
  {
    Assoc(w.bare, QuotedText(w.quoted), rest);
    BareReads(w.bare, QuotedText(w.quoted) + rest);
    match w.quoted
    case Nothing =>
      assert [] + rest == rest;
    case InDouble(a) =>
      hide Bare, Repr, SingleOk, SingleEscaped;
      InDoubleReads(a, rest);
    case InSingle(a) =>
      hide Bare, Repr, SingleOk, SingleEscaped;
      InSingleReads(a, rest);
  }

  datatype Item = Item(blanks: bytes, word: Word)

  ghost predicate AllBlank(s: bytes) { forall i :: 0 <= i < |s| ==> IsBreak(s[i]) }

  ghost predicate ItemsOk(items: seq<Item>, tail: bytes) {
    && AllBlank(tail)
    && forall i :: 0 <= i < |items| ==>
      WordOk(items[i].word) && AllBlank(items[i].blanks) && (i > 0 ==> items[i].blanks != [])
  }

  function LineText(items: seq<Item>, tail: bytes): bytes {
    if items == [] then tail else items[0].blanks + (WordText(items[0].word) + LineText(items[1..], tail))
  }

  function Args(items: seq<Item>): (r: seq<bytes>)
    ensures |r| == |items| && forall i :: 0 <= i < |r| ==> r[i] == WordArg(items[i].word)
  {
    seq(|items|, i requires 0 <= i < |items| => WordArg(items[i].word))
  }

  lemma {:induction false} SkipsBlanks(b: bytes, s: bytes)
    requires AllBlank(b)
    ensures Skip(b + s) == Skip(s)
  {
    if b == [] {
      assert b + s == s;
    } else {
      assert (b + s)[1..] == b[1..] + s && (b + s)[0] == b[0];
      SkipsBlanks(b[1..], s);
    }
  }

  lemma SkipsOne(s: bytes)
    requires s != [] && IsBreak(s[0])
    ensures Split(s) == Split(s[1..])
  {
    hide Bare;
  }

  lemma WordStarts(w: Word, rest: bytes)
    requires WordOk(w)
    ensures WordText(w) + rest != [] && Head(WordText(w) + rest) != NUL && !IsSpace(Head(WordText(w) + rest))
  {
    hide Escaped, SingleEscaped;
  }

  lemma RestOk(items: seq<Item>, tail: bytes)
    requires ItemsOk(items, tail) && items != []
    ensures ItemsOk(items[1..], tail) && Follows(LineText(items[1..], tail)) && WordOk(items[0].word) && AllBlank(items[0].blanks)
  {
    hide WordOk, WordText;
    forall i | 0 <= i < |items[1..]|
      ensures WordOk(items[1..][i].word) && AllBlank(items[1..][i].blanks) && items[1..][i].blanks != []
    {
      assert items[1..][i] == items[i + 1];
    }
  }

  /** Any line made of words and blanks is split into the words' arguments. */
  lemma {:induction false} LineSplits(items: seq<Item>, tail: bytes)
    requires ItemsOk(items, tail)
    ensures Split(LineText(items, tail)) == Some(Args(items))
  {
    if items == [] {
      SkipsBlanks(tail, []);
      assert tail + [] == tail;
    } else {
      var w, rest := items[0].word, LineText(items[1..], tail);
      RestOk(items, tail);
      LineSplits(items[1..], tail);
      hide ItemsOk, WordOk, WordText, Bare;
      SkipsBlanks(items[0].blanks, WordText(w) + rest);
      WordStarts(w, rest);
      WordReads(w, rest);
      if rest != [] { SkipsOne(rest); }
      assert Args(items) == [WordArg(w)] + Args(items[1..]);
    }
  }

  /** A word in quotes that are never closed makes the whole line fail. */
  lemma OpenQuoteFails(items: seq<Item>, blanks: bytes, bare: bytes, a: bytes)
    requires ItemsOk(items, blanks) && (items != [] ==> blanks != []) && WordOk(Word(bare, InDouble(a)))
    ensures Split(LineText(items, blanks + (bare + ([QUOTE] + Escaped(a))))) == None
    decreases |items|
  {
    var open := bare + ([QUOTE] + Escaped(a));
    if items == [] {
      OpenWord(bare, a);
      SkipsBlanks(blanks, open);
      hide Escaped, Bare;
      assert Head(open) != NUL && !IsSpace(Head(open));
    } else {
      var w, rest := items[0].word, LineText(items[1..], blanks + open);
      RestOk(items, blanks);
      OpenQuoteFails(items[1..], blanks, bare, a);
      hide WordOk, WordText, Bare, Escaped;
      assert Follows(rest);
      SkipsBlanks(items[0].blanks, WordText(w) + rest);
      WordStarts(w, rest);
      WordReads(w, rest);
      SkipsOne(rest);
    }
  }

  lemma {:induction false} NeverClosed(a: bytes)
    ensures Double(Escaped(a)) == Bad
  {
    if a != [] {
      EscapeReads(a[0], Escaped(a[1..]));
      NeverClosed(a[1..]);
    }
  }

  lemma OpenWord(bare: bytes, a: bytes)
    requires forall i :: 0 <= i < |bare| ==> IsBareChar(bare[i])
    ensures Bare(bare + ([QUOTE] + Escaped(a))) == Bad
  {
    BareReads(bare, [QUOTE] + Escaped(a));
    NeverClosed(a);
    assert ([QUOTE] + Escaped(a))[1..] == Escaped(a);
    hide Escaped, Double;
  }

  // ---------------------------------------------------------------- round trip

  /** Quoted arguments with single spaces between them. */
  function Joined(args: seq<bytes>): bytes {
    if args == [] then [] else Repr(args[0]) + if |args| == 1 then [] else [SPACE] + Joined(args[1..])
  }

  function AllQuoted(args: seq<bytes>, first: bool): (items: seq<Item>)
    ensures |items| == |args|
    ensures forall i :: 0 <= i < |args| ==> items[i] == Item(if first && i == 0 then [] else [SPACE], Word([], InDouble(args[i])))
  {
    seq(|args|, i requires 0 <= i < |args| => Item(if first && i == 0 then [] else [SPACE], Word([], InDouble(args[i]))))
  }

  lemma AllQuotedFacts(args: seq<bytes>)
    ensures ItemsOk(AllQuoted(args, true), []) && Args(AllQuoted(args, true)) == args
  {
    hide Repr;
    forall i | 0 <= i < |args| ensures WordArg(AllQuoted(args, true)[i].word) == args[i] {
      assert [] + args[i] == args[i];
    }
  }

  lemma {:induction false} AllQuotedText(args: seq<bytes>, first: bool)
    ensures LineText(AllQuoted(args, first), []) == (if first || args == [] then [] else [SPACE]) + Joined(args)
  {
    hide Repr;
    if args != [] {
      AllQuotedText(args[1..], false);
      assert AllQuoted(args, first)[1..] == AllQuoted(args[1..], false);
      var blanks := if first then [] else [SPACE];
      assert AllQuoted(args, first)[0] == Item(blanks, Word([], InDouble(args[0])));
      hide AllQuoted;
      assert WordText(Word([], InDouble(args[0]))) == Repr(args[0]) by { assert [] + Repr(args[0]) == Repr(args[0]); }
      hide WordText;
    }
  }

  /** Quoting every argument, joining with spaces and splitting again gives the
      arguments back, whatever bytes they hold. */
  method QuoteAndSplit(args: seq<bytes>) returns (ok: bool, vector: seq<bytes>)
    ensures ok && vector == args
  {
    hide Repr, Joined, AllQuoted, LineText;
    var line: bytes := [];
    var j := 0;
    JoinedStart(args);
    while j < |args|
      invariant j <= |args| && line + Pending(args, j) == Joined(args)
    {
      JoinedStep(args, j, line);
      line := SdsCatRepr(line, args[j]);
      if j != |args| - 1 { line := line + [SPACE]; }
      j := j + 1;
    }
    JoinedEnd(args, line);
    AllQuotedFacts(args);
    AllQuotedText(args, true);
    LineSplits(AllQuoted(args, true), []);
    ok, vector := SdsSplitArgs(line);
  }

  /** What is still to be written when j arguments and their spaces are. */
  function Pending(args: seq<bytes>, j: nat): bytes
    requires j <= |args|
  {
    Joined(args[j..])
  }

  lemma JoinedStart(args: seq<bytes>)
    ensures [] + Pending(args, 0) == Joined(args)
  {
    assert args[0..] == args;
  }

  lemma JoinedStep(args: seq<bytes>, j: nat, line: bytes)
    requires j < |args|
    ensures var sep := if j != |args| - 1 then [SPACE] else [];
            (line + Repr(args[j])) + sep + Pending(args, j + 1) == line + Pending(args, j)
  {
    hide Repr;
    assert args[j..][1..] == args[j + 1..];
    if j == |args| - 1 { assert args[j + 1..] == []; }
  }

  lemma JoinedEnd(args: seq<bytes>, line: bytes)
    requires line + Pending(args, |args|) == Joined(args)
    ensures line == Joined(args)
  {
    assert args[|args|..] == [];
  }
}
