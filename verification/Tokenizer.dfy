/** `tokenize` of `shell/lexer.c`: the line is cut up in place, a token that is a word being a pointer into it
    and a NUL being written over every character that belongs to no word. */
module Tokenizer {
  import opened Lexer

  /** An element of the token vector: `NULL`, one of the small constants, or a pointer into the line. */
  datatype Slot = Null | Sign(token: Token) | At(start: nat)

  /** The C string that starts at offset `i`. */
  function CString(s: seq<char>, i: nat): string
    requires i <= |s|
    decreases |s| - i
  {
    if i == |s| || s[i] == NUL then "" else [s[i]] + CString(s, i + 1)
  }

  predicate Denotes(s: seq<char>, slot: Slot, t: Token) {
    match slot
    case Null => false
    case Sign(u) => t == u && !t.Word?
    case At(i) => i <= |s| && t == Word(CString(s, i))
  }

  /** What the tokenizer leaves of a piece: words stay, everything else is overwritten. */
  function Left(p: Piece): string {
    if p.Tok? && p.token.Word? then p.token.text else seq(|Text(p)|, i => NUL)
  }

  function Blanked(ps: seq<Piece>): string {
    if ps == [] then "" else Blanked(ps[..|ps| - 1]) + Left(ps[|ps| - 1])
  }

  lemma {:induction false} CStringIs(s: seq<char>, i: nat, w: string)
    requires i + |w| < |s| && s[i..i + |w|] == w && NUL !in w && s[i + |w|] == NUL
    ensures CString(s, i) == w
    decreases |w|
  {
    if w != "" {
      assert s[i] == w[0] && w[0] in w;
      assert s[i + 1..i + |w|] == w[1..];
      CStringIs(s, i + 1, w[1..]);
    }
  }

  /** How a token lies in the part of the line that is done: a word may still lack its terminator. */
  predicate Placed(line: string, buf: seq<char>, p: nat, slot: Slot, t: Token)
    requires p <= |line| < |buf|
  {
    match slot
    case Null => false
    case Sign(u) => t == u && !t.Word?
    case At(i) =>
      t.Word? && NUL !in t.text && i + |t.text| <= p && buf[i..i + |t.text|] == t.text &&
      if i + |t.text| < p then buf[i + |t.text|] == NUL else p < |line| ==> Delimiter(line[p])
  }

  predicate AllPlaced(line: string, buf: seq<char>, p: nat, toks: seq<Slot>, ts: seq<Token>)
    requires p <= |line| < |buf|
  {
    |toks| == |ts| && forall k :: 0 <= k < |ts| ==> Placed(line, buf, p, toks[k], ts[k])
  }

  /** The tokenizer has reached offset `p`. */
  ghost predicate Progress(line: string, was: seq<char>, buf: seq<char>, p: nat, done: seq<Piece>, toks: seq<Slot>) {
    && p <= |line| < |buf| == |was|
    && Pieces(line) == done + Pieces(line[p..])
    && |Blanked(done)| == p && buf == Blanked(done) + was[p..]
    && AllPlaced(line, buf, p, toks, Tokens(done))
  }

  predicate IsLine(buf: seq<char>, line: string) {
    |line| < |buf| && buf[..|line|] == line && buf[|line|] == NUL && NUL !in line
  }

  lemma PiecesStep(line: string, p: nat, f: Piece)
    requires p < |line| && f == First(line[p..])
    ensures p + |Text(f)| <= |line| && line[p..p + |Text(f)|] == Text(f)
    ensures Pieces(line[p..]) == [f] + Pieces(line[p + |Text(f)|..])
  {
    hide First;
    var n := |Text(f)|;
    assert line[p..][n..] == line[p + n..];
    assert line[p..][..n] == line[p..p + n];
  }

  lemma BlankedStep(done: seq<Piece>, f: Piece)
    ensures Blanked(done + [f]) == Blanked(done) + Left(f) && |Left(f)| == |Text(f)|
    ensures Tokens(done + [f]) == Tokens(done) + (if f.Tok? then [f.token] else [])
  {
    assert (done + [f])[..|done|] == done;
    TokensConcat(done, [f]);
    assert [f][1..] == [];
  }

  /** The next piece is done. */
  lemma Advance(line: string, was: seq<char>, buf: seq<char>, p: nat, done: seq<Piece>, toks: seq<Slot>, f: Piece)
    requires Progress(line, was, buf, p, done, toks) && p < |line| && f == First(line[p..])
    ensures p + |Text(f)| <= |line| && line[p..p + |Text(f)|] == Text(f)
    ensures Pieces(line) == done + [f] + Pieces(line[p + |Text(f)|..])
    ensures Blanked(done + [f]) == Blanked(done) + Left(f) && |Left(f)| == |Text(f)|
    ensures Tokens(done + [f]) == Tokens(done) + (if f.Tok? then [f.token] else [])
  {
    hide Pieces, Text, Blanked, Tokens, First, Left;
    PiecesStep(line, p, f);
    BlankedStep(done, f);
  }

  /** Blanking what follows terminates a word and disturbs none. */
  lemma BlankedPlaced(line: string, buf: seq<char>, buf': seq<char>, p: nat, q: nat, slot: Slot, t: Token)
    requires p < q <= |line| < |buf| == |buf'| && Placed(line, buf, p, slot, t)
    requires buf'[..p] == buf[..p] && buf'[p] == NUL
    ensures Placed(line, buf', q, slot, t)
  {
    if slot.At? {
      var i, w := slot.start, t.text;
      assert buf'[i..i + |w|] == buf'[..p][i..i + |w|] == buf[..p][i..i + |w|] == buf[i..i + |w|];
      assert i + |w| < p ==> buf'[i + |w|] == buf'[..p][i + |w|] == buf[..p][i + |w|];
    }
  }

  lemma SignPlaced(line: string, buf: seq<char>, p: nat, t: Token)
    requires p <= |line| < |buf| && !t.Word?
    ensures Placed(line, buf, p, Sign(t), t)
  {
  }

  /** A piece that is not a word is overwritten. */
  lemma Overwritten(line: string, was: seq<char>, buf: seq<char>, p: nat, done: seq<Piece>, toks: seq<Slot>,
                    f: Piece, buf': seq<char>, toks': seq<Slot>)
    requires IsLine(was, line) && Progress(line, was, buf, p, done, toks) && p < |line| && f == First(line[p..])
    requires !(f.Tok? && f.token.Word?)
    requires p + |Text(f)| <= |buf| == |buf'|
    requires buf' == buf[..p] + Left(f) + buf[p + |Text(f)|..]
    requires toks' == toks + (if f.Tok? then [Sign(f.token)] else [])
    ensures Progress(line, was, buf', p + |Text(f)|, done + [f], toks')
  {
    hide Pieces, Blanked, Tokens, First, Placed;
    var n := |Text(f)|;
    Advance(line, was, buf, p, done, toks, f);
    assert buf' == Blanked(done + [f]) + was[p + n..] by {
      assert buf[p + n..] == was[p..][n..] == was[p + n..];
    }
    assert buf'[..p] == buf[..p] && buf'[p] == Left(f)[0] == NUL;
    var ts := Tokens(done);
    forall k | 0 <= k < |ts|
      ensures Placed(line, buf', p + n, toks[k], ts[k])
    {
      BlankedPlaced(line, buf, buf', p, p + n, toks[k], ts[k]);
    }
    if f.Tok? {
      SignPlaced(line, buf', p + n, f.token);
    }
  }

  /** The word that starts at `p` is where its pointer says, unterminated if it goes on to the end. */
  lemma WordPlaced(line: string, was: seq<char>, buf: seq<char>, p: nat, w: string)
    requires IsLine(was, line) && |buf| == |was| && p + |w| <= |line| && line[p..p + |w|] == w
    requires buf[p..] == was[p..]
    requires p + |w| < |line| ==> Delimiter(line[p + |w|])
    ensures Placed(line, buf, p + |w|, At(p), Word(w)) && was[p..p + |w|] == w
  {
    var n := |w|;
    assert forall j :: p <= j < |line| ==> was[j] == was[..|line|][j] == line[j];
    assert forall j :: p <= j < p + n ==> buf[j] == buf[p..][j - p] == was[p..][j - p] == line[j];
    assert forall j :: 0 <= j < n ==> w[j] == line[p..p + n][j] == line[p + j];
  }

  lemma SplitAt(s: seq<char>, p: nat, q: nat)
    requires p <= q <= |s|
    ensures s[p..] == s[p..q] + s[q..]
  {
  }

  lemma StaysPlaced(line: string, buf: seq<char>, p: nat, q: nat, slot: Slot, t: Token)
    requires p < q <= |line| < |buf| && Placed(line, buf, p, slot, t) && !Delimiter(line[p])
    ensures Placed(line, buf, q, slot, t)
  {
  }

  /** A word stays; the character after it will be overwritten by the next step, if there is one. */
  lemma Kept(line: string, was: seq<char>, buf: seq<char>, p: nat, done: seq<Piece>, toks: seq<Slot>, f: Piece)
    requires IsLine(was, line) && Progress(line, was, buf, p, done, toks) && p < |line| && f == First(line[p..])
    requires f.Tok? && f.token.Word?
    ensures p + |Text(f)| <= |line|
    ensures Progress(line, was, buf, p + |Text(f)|, done + [f], toks + [At(p)])
  {
    hide Pieces, Blanked, Tokens, First, Placed;
    var w := f.token.text;
    var n := |w|;
    Advance(line, was, buf, p, done, toks, f);
    assert buf[p..] == was[p..];
    assert p + n < |line| ==> line[p..][n..][0] == line[p + n];
    WordPlaced(line, was, buf, p, w);
    SplitAt(was, p, p + n);
    assert buf == Blanked(done + [f]) + was[p + n..];
    assert line[p] == w[0];
    var ts := Tokens(done);
    forall k | 0 <= k < |ts|
      ensures Placed(line, buf, p + n, toks[k], ts[k])
    {
      StaysPlaced(line, buf, p, p + n, toks[k], ts[k]);
    }
  }

  lemma PlacedDenotes(line: string, buf: seq<char>, slot: Slot, t: Token)
    requires |line| < |buf| && buf[|line|] == NUL && Placed(line, buf, |line|, slot, t)
    ensures Denotes(buf, slot, t)
  {
    if slot.At? {
      CStringIs(buf, slot.start, t.text);
    }
  }

  /** At the end of the line every token can be read off. */
  lemma AllDenoted(line: string, was: seq<char>, buf: seq<char>, done: seq<Piece>, toks: seq<Slot>)
    requires IsLine(was, line) && Progress(line, was, buf, |line|, done, toks)
    ensures done == Pieces(line) && |toks| == |Tokens(done)|
    ensures forall k :: 0 <= k < |toks| ==> Denotes(buf, toks[k], Tokens(done)[k])
  {
    hide Blanked, Tokens, Placed, Denotes, CString;
    assert line[|line|..] == "";
    var ts := Tokens(done);
    assert buf[|line|] == NUL;
    forall k | 0 <= k < |toks|
      ensures Denotes(buf, toks[k], ts[k])
    {
      PlacedDenotes(line, buf, toks[k], ts[k]);
    }
  }

  /** `strcspn`: the length of the longest prefix without a delimiter. */
  method StrCSpn(s: array<char>, p: nat, ghost line: string) returns (l: nat)
    requires p <= |line| < s.Length && IsLine(s[p..], line[p..])
    ensures p + l <= |line| && l == Span(line[p..])
  {
    ghost var rest, buf := line[p..], s[p..];
    assert forall j :: 0 <= j < |rest| ==> buf[j] == buf[..|rest|][j] == rest[j] && rest[j] in rest;
    assert forall j :: p <= j < s.Length ==> s[j] == buf[j - p];
    l := 0;
    while s[p + l] != NUL && !Delimiter(s[p + l])
      invariant p + l <= |line| && NoDelimiter(rest[..l])
      decreases |line| - l
    {
      assert rest[..l + 1] == rest[..l] + [s[p + l]];
      l := l + 1;
    }
    SpanIs(rest, l);
  }

  /** The part of the line not yet reached is as it was. */
  lemma Ahead(line: string, was: seq<char>, buf: seq<char>, p: nat, done: seq<Piece>, toks: seq<Slot>)
    requires IsLine(was, line) && Progress(line, was, buf, p, done, toks)
    ensures forall j :: p <= j < |buf| ==> buf[j] == was[j]
    ensures forall j :: p <= j < |line| ==> buf[j] == line[j] && buf[j] != NUL
    ensures buf[|line|] == NUL && IsLine(buf[p..], line[p..])
  {
    hide Blanked, Pieces, Tokens, AllPlaced;
    assert forall j :: p <= j < |buf| ==> buf[j] == was[p..][j - p];
    assert forall j :: 0 <= j < |line| ==> was[j] == was[..|line|][j] && line[j] in line;
    assert buf[p..][..|line| - p] == line[p..];
  }

  /** Makes room for one more token, keeping a slot for the terminator. */
  method Grow(tokvec: array<Slot>, ntoks: nat, capacity: nat) returns (bigger: array<Slot>)
    requires ntoks <= tokvec.Length <= capacity + 1
    ensures fresh(bigger) && bigger.Length == capacity + 1 && bigger[..ntoks] == tokvec[..ntoks]
  {
    bigger := new Slot[capacity + 1];
    var i := 0;
    while i < ntoks
      invariant i <= ntoks && bigger[..i] == tokvec[..i]
    {
      bigger[i] := tokvec[i];
      i := i + 1;
    }
  }

  lemma Start(line: string, was: seq<char>)
    requires IsLine(was, line)
    ensures Progress(line, was, was, 0, [], [])
  {
    assert line[0..] == line && was[0..] == was;
    assert [] + Pieces(line) == Pieces(line);
  }

  predicate IsOperator(c: char) {
    c == '|' || c == '&' || c == '<' || c == '>' || c == ';' || c == '!'
  }

  /** The operator that begins with character `c`, given the character after it. */
  function SignOf(c: char, next: char): Token {
    if c == '|' then (if next == '|' then Or else Pipe)
    else if c == '&' then (if next == '&' then And else BgJob)
    else if c == '<' then Input
    else if c == '>' then Output
    else if c == ';' then Colon
    else Bang
  }

  lemma Bounds(line: string, was: seq<char>, buf: seq<char>, p: nat, done: seq<Piece>, toks: seq<Slot>)
    requires Progress(line, was, buf, p, done, toks)
    ensures p <= |line| < |buf|
  {
  }

  /** The line ends at its first NUL. */
  lemma Reached(line: string, was: seq<char>, buf: seq<char>, p: nat, done: seq<Piece>, toks: seq<Slot>)
    requires IsLine(was, line) && Progress(line, was, buf, p, done, toks) && buf[p] == NUL
    ensures p == |line| && buf == Blanked(done) + was[p..]
  {
    Ahead(line, was, buf, p, done, toks);
  }

  /** What the tokenizer sees at offset `p`, which is not the end of the line. */
  lemma Here(line: string, was: seq<char>, buf: seq<char>, p: nat, done: seq<Piece>, toks: seq<Slot>)
    requires IsLine(was, line) && Progress(line, was, buf, p, done, toks) && buf[p] != NUL
    ensures p < |line| < |buf| && IsLine(buf[p..], line[p..])
    ensures var f := First(line[p..]); var l := Span(line[p..]);
      if IsSpace(buf[p]) then f == Gap(buf[p]) && |Text(f)| == 1
      else if l > 0 then f == Tok(Word(line[p..p + l])) && |Text(f)| == l
      else IsOperator(buf[p]) && f == Tok(SignOf(buf[p], buf[p + 1])) && !f.token.Word? &&
           |Text(f)| == |Spelling(f.token)| && p + |Text(f)| <= |line|
  {
    hide Pieces, Blanked, Tokens, AllPlaced;
    Ahead(line, was, buf, p, done, toks);
    assert line[p..][..Span(line[p..])] == line[p..p + Span(line[p..])];
    assert p + 1 < |line| ==> line[p..][1] == line[p + 1];
  }

  /** The line with NULs written over what lies from `p` to `q`. */
  function Erased(s: seq<char>, p: nat, q: nat): seq<char>
    requires p <= q <= |s|
  {
    s[..p] + seq(q - p, i => NUL) + s[q..]
  }

  /** The operator at `p` is recognised and erased. */
  method Operator(s: array<char>, p: nat) returns (sign: Token, q: nat)
    requires p + 1 < s.Length && IsOperator(s[p])
    modifies s
    ensures sign == SignOf(old(s[p]), old(s[p + 1]))
    ensures q == p + |Spelling(sign)| <= s.Length && s[..] == Erased(old(s[..]), p, q)
  {
    q := p;
    if s[q] == '|' {
      if s[q + 1] == '|' {
        s[q] := NUL;
        q := q + 1;
        sign := Or;
      } else {
        sign := Pipe;
      }
    } else if s[q] == '&' {
      if s[q + 1] == '&' {
        s[q] := NUL;
        q := q + 1;
        sign := And;
      } else {
        sign := BgJob;
      }
    } else if s[q] == '<' {
      sign := Input;
    } else if s[q] == '>' {
      sign := Output;
    } else if s[q] == ';' {
      sign := Colon;
    } else if s[q] == '!' {
      sign := Bang;
    } else {
      assert false;
    }
    s[q] := NUL;
    q := q + 1;
  }

  lemma ErasedOne(s: seq<char>, p: nat, s': seq<char>)
    requires p < |s| && s' == s[p := NUL]
    ensures s' == Erased(s, p, p + 1)
  {
  }

  /** A step over a piece that is not a word. */
  lemma ErasedOk(line: string, was: seq<char>, buf: seq<char>, p: nat, done: seq<Piece>, toks: seq<Slot>,
                 f: Piece, toks': seq<Slot>)
    requires IsLine(was, line) && Progress(line, was, buf, p, done, toks) && p < |line| && f == First(line[p..])
    requires !(f.Tok? && f.token.Word?)
    requires toks' == toks + (if f.Tok? then [Sign(f.token)] else [])
    ensures p + |Text(f)| <= |line| < |buf|
    ensures Progress(line, was, Erased(buf, p, p + |Text(f)|), p + |Text(f)|, done + [f], toks')
  {
    hide Progress, Pieces, Blanked, Tokens, First;
    Bounds(line, was, buf, p, done, toks);
    Overwritten(line, was, buf, p, done, toks, f, Erased(buf, p, p + |Text(f)|), toks');
  }

  method Tokenize(s: array<char>, ghost line: string) returns (tokvec: array<Slot>, ntoks: nat)
    requires IsLine(s[..], line)
    modifies s
    ensures fresh(tokvec) && ntoks < tokvec.Length && tokvec[ntoks] == Null
    ensures ntoks == |Tokens(Pieces(line))|
    ensures forall k :: 0 <= k < ntoks ==> Denotes(s[..], tokvec[k], Tokens(Pieces(line))[k])
    ensures s[..] == Blanked(Pieces(line)) + old(s[|line|..])
  {
    hide Pieces, Blanked, Tokens, Progress, IsLine, First, Span, Denotes, Delimiter, Text, Spelling, SignOf, IsOperator,
      IsSpace, Erased;
    var capacity := 10;
    ntoks := 0;
    tokvec := new Slot[capacity + 1];
    ghost var was := s[..];
    ghost var done: seq<Piece> := [];
    var p := 0;
    Start(line, was);
    Bounds(line, was, was, p, done, []);
    while s[p] != NUL
      invariant p <= |line| < s.Length
      invariant ntoks <= capacity == tokvec.Length - 1 && capacity > 0 && fresh(tokvec)
      invariant Progress(line, was, s[..], p, done, tokvec[..ntoks])
      decreases |line| - p
    {
      Here(line, was, s[..], p, done, tokvec[..ntoks]);
      ghost var buf, toks, f, at := s[..], tokvec[..ntoks], First(line[p..]), p;
      if IsSpace(s[p]) {
        s[p] := NUL;
        p := p + 1;
        ErasedOk(line, was, buf, at, done, toks, f, toks);
        ErasedOne(buf, at, s[..]);
        done := done + [f];
        continue;
      }
      // The vector has a slot more than its capacity, for the terminator.
      if ntoks == capacity {
        capacity := 2 * capacity;
        tokvec := Grow(tokvec, ntoks, capacity);
      }
      var l := StrCSpn(s, p, line);
      if l > 0 {
        tokvec[ntoks] := At(p);
        ntoks := ntoks + 1;
        p := p + l;
        assert tokvec[..ntoks] == toks + [At(at)];
        Kept(line, was, buf, at, done, toks, f);
        done := done + [f];
        continue;
      }
      var sign;
      sign, p := Operator(s, p);
      tokvec[ntoks] := Sign(sign);
      ntoks := ntoks + 1;
      assert tokvec[..ntoks] == toks + [Sign(sign)];
      ErasedOk(line, was, buf, at, done, toks, f, tokvec[..ntoks]);
      done := done + [f];
    }
    tokvec[ntoks] := Null;
    Reached(line, was, s[..], p, done, tokvec[..ntoks]);
    AllDenoted(line, was, s[..], done, tokvec[..ntoks]);
  }
}
