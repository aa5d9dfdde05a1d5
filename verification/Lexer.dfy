/** The tokenizer of `shell/lexer.c`, which cuts the command line up in place, and the printer `mkcommand` of
    `shell/jobs.c`, which the tokenizer undoes. */
module Lexer {
  datatype Option<T> = None | Some(value: T)

  datatype Token = And | Or | Pipe | BgJob | Colon | Output | Input | Bang | Word(text: string)

  /** A piece of the command line: one skipped character, or a token. */
  datatype Piece = Gap(c: char) | Tok(token: Token)

  const NUL: char := '\0'

  predicate IsSpace(c: char) {
    c == ' ' || '\t' <= c <= '\r'
  }

  /** The characters that end a word. */
  predicate Delimiter(c: char) {
    c == ' ' || c == '|' || c == '&' || c == '<' || c == '>' || c == ';' || c == '!'
  }

  predicate NoDelimiter(s: string) {
    forall i :: 0 <= i < |s| ==> !Delimiter(s[i])
  }

  function Spelling(t: Token): string {
    match t
    case And => "&&"
    case Or => "||"
    case Pipe => "|"
    case BgJob => "&"
    case Colon => ";"
    case Output => ">"
    case Input => "<"
    case Bang => "!"
    case Word(w) => w
  }

  function Text(p: Piece): string {
    match p
    case Gap(c) => [c]
    case Tok(t) => Spelling(t)
  }

  function Join(ps: seq<Piece>): string {
    if ps == [] then "" else Text(ps[0]) + Join(ps[1..])
  }

  /** A word the command line can express. */
  predicate Plain(w: string) {
    w != "" && !IsSpace(w[0]) && NoDelimiter(w)
  }

  predicate Proper(p: Piece) {
    match p
    case Gap(c) => IsSpace(c)
    case Tok(Word(w)) => Plain(w)
    case Tok(_) => true
  }

  /** `rest` does not begin with something that belongs to the piece before it. */
  predicate Ends(p: Piece, rest: string) {
    rest == "" ||
    match p
    case Tok(Word(_)) => Delimiter(rest[0])
    case Tok(Pipe) => rest[0] != '|'
    case Tok(BgJob) => rest[0] != '&'
    case _ => true
  }

  /** What it means to cut a text up, without saying how: proper pieces, each as long as it can be. */
  predicate Cut(ps: seq<Piece>) {
    ps != [] ==> Proper(ps[0]) && Ends(ps[0], Join(ps[1..])) && Cut(ps[1..])
  }

  /** How many characters of `s` come before the first delimiter. */
  function Span(s: string): (n: nat)
    ensures n <= |s| && NoDelimiter(s[..n]) && (n < |s| ==> Delimiter(s[n]))
  {
    if s == "" || Delimiter(s[0]) then 0 else
      assert forall i :: 0 < i <= Span(s[1..]) ==> s[i] == s[1..][i - 1];
      1 + Span(s[1..])
  }

  lemma SpanIs(s: string, n: nat)
    requires n <= |s| && NoDelimiter(s[..n]) && (n < |s| ==> Delimiter(s[n]))
    ensures Span(s) == n
  {
    var m := Span(s);
    assert forall i :: 0 <= i < n ==> s[..n][i] == s[i];
    assert forall i :: 0 <= i < m ==> s[..m][i] == s[i];
  }

  function First(s: string): (p: Piece)
    requires s != ""
    ensures |Text(p)| <= |s| && Text(p) == s[..|Text(p)|] && Text(p) != ""
    ensures Proper(p) && Ends(p, s[|Text(p)|..])
  {
    if IsSpace(s[0]) then Gap(s[0])
    else if Span(s) > 0 then Tok(Word(s[..Span(s)]))
    else if s[0] == '|' then (if |s| > 1 && s[1] == '|' then Tok(Or) else Tok(Pipe))
    else if s[0] == '&' then (if |s| > 1 && s[1] == '&' then Tok(And) else Tok(BgJob))
    else if s[0] == '<' then Tok(Input)
    else if s[0] == '>' then Tok(Output)
    else if s[0] == ';' then Tok(Colon)
    else Tok(Bang)
  }

  function Pieces(s: string): seq<Piece>
    decreases |s|
  {
    if s == "" then [] else [First(s)] + Pieces(s[|Text(First(s))|..])
  }

  function Tokens(ps: seq<Piece>): seq<Token> {
    if ps == [] then [] else (if ps[0].Tok? then [ps[0].token] else []) + Tokens(ps[1..])
  }

  lemma {:induction false} PiecesCut(s: string)
    ensures Join(Pieces(s)) == s && Cut(Pieces(s))
    decreases |s|
  {
    if s != "" {
      var t := s[|Text(First(s))|..];
      PiecesCut(t);
      assert Pieces(s)[1..] == Pieces(t);
    }
  }

  /** A piece that is followed by something it cannot absorb is the first piece. */
  lemma FirstIs(p: Piece, rest: string)
    requires Proper(p) && Ends(p, rest)
    ensures Text(p) + rest != "" && First(Text(p) + rest) == p
  {
    var s := Text(p) + rest;
    if p.Tok? && p.token.Word? {
      var n := |p.token.text|;
      assert s[..n] == p.token.text;
      assert n < |s| ==> s[n] == rest[0];
      SpanIs(s, n);
    } else if p.Tok? {
      assert Span(s) == 0;
      assert |s| > 1 && |Text(p)| == 1 ==> s[1] == rest[0];
    }
  }

  lemma {:induction false} CutPieces(ps: seq<Piece>)
    requires Cut(ps)
    ensures Pieces(Join(ps)) == ps
  {
    if ps != [] {
      var rest := Join(ps[1..]);
      FirstIs(ps[0], rest);
      assert Join(ps)[|Text(ps[0])|..] == rest;
      CutPieces(ps[1..]);
    }
  }

  /** There is exactly one way to cut a command line up, and the tokenizer finds it. */
  lemma PiecesExact(s: string, ps: seq<Piece>)
    ensures (Join(ps) == s && Cut(ps)) <==> ps == Pieces(s)
  {
    PiecesCut(s);
    if Join(ps) == s && Cut(ps) {
      CutPieces(ps);
    }
  }

  lemma {:induction false} JoinConcat(ps: seq<Piece>, qs: seq<Piece>)
    ensures Join(ps + qs) == Join(ps) + Join(qs)
  {
    if ps == [] {
      assert ps + qs == qs;
    } else {
      assert (ps + qs)[1..] == ps[1..] + qs;
      JoinConcat(ps[1..], qs);
    }
  }

  lemma {:induction false} TokensConcat(ps: seq<Piece>, qs: seq<Piece>)
    ensures Tokens(ps + qs) == Tokens(ps) + Tokens(qs)
  {
    if ps == [] {
      assert ps + qs == qs;
    } else {
      assert (ps + qs)[1..] == ps[1..] + qs;
      TokensConcat(ps[1..], qs);
    }
  }

  /** Two cut texts may be put side by side when the first ends with a space. */
  lemma {:induction false} CutConcat(ps: seq<Piece>, qs: seq<Piece>)
    requires Cut(ps) && Cut(qs) && (ps != [] ==> ps[|ps| - 1] == Gap(' '))
    ensures Cut(ps + qs)
  {
    if ps == [] {
      assert ps + qs == qs;
    } else if |ps| == 1 {
      assert (ps + qs)[1..] == qs;
    } else {
      assert (ps + qs)[1..] == ps[1..] + qs;
      CutConcat(ps[1..], qs);
      JoinConcat(ps[1..], qs);
      assert Join(ps[1..]) != "" by {
        PiecesExact(Join(ps[1..]), ps[1..]);
      }
    }
  }

  /** A word may follow a text that ends with a space. */
  lemma {:induction false} PutWord(ps: seq<Piece>, w: string) returns (qs: seq<Piece>)
    requires Cut(ps) && (ps != [] ==> ps[|ps| - 1] == Gap(' ')) && Plain(w)
    ensures Cut(qs) && Join(qs) == Join(ps) + w && Tokens(qs) == Tokens(ps) + [Word(w)]
  {
    var word := [Tok(Word(w))];
    CutConcat(ps, word);
    JoinConcat(ps, word);
    TokensConcat(ps, word);
    qs := ps + word;
  }

  lemma {:induction false} CutBeforeSpace(ps: seq<Piece>)
    requires Cut(ps)
    ensures Cut(ps + [Gap(' ')])
  {
    if ps == [] {
      assert ps + [Gap(' ')] == [Gap(' ')];
      assert Cut([Gap(' ')][1..]);
    } else {
      assert (ps + [Gap(' ')])[1..] == ps[1..] + [Gap(' ')];
      CutBeforeSpace(ps[1..]);
      JoinConcat(ps[1..], [Gap(' ')]);
      if Join(ps[1..]) == "" {
        PiecesExact("", ps[1..]);
        assert Join([Gap(' ')]) == " ";
      }
    }
  }

  /** A space may follow any text. */
  lemma PutSpace(ps: seq<Piece>) returns (qs: seq<Piece>)
    requires Cut(ps)
    ensures Cut(qs) && Join(qs) == Join(ps) + " " && Tokens(qs) == Tokens(ps) && qs != [] && qs[|qs| - 1] == Gap(' ')
  {
    CutBeforeSpace(ps);
    JoinConcat(ps, [Gap(' ')]);
    TokensConcat(ps, [Gap(' ')]);
    assert Join([Gap(' ')]) == " " && Tokens([Gap(' ')]) == [];
    qs := ps + [Gap(' ')];
  }

  lemma NoPieces()
    ensures Cut([]) && Join([]) == "" && Tokens([]) == []
  {
  }

  lemma Bar(bar: seq<Piece>)
    requires bar == [Tok(Pipe), Gap(' ')]
    ensures Cut(bar) && Join(bar) == "| " && Tokens(bar) == [Pipe]
  {
    assert bar[1..] == [Gap(' ')];
    assert [Gap(' ')][1..] == [];
    assert Join([Gap(' ')]) == " ";
  }

  /** So may a pipe between spaces. */
  lemma PutPipe(ps: seq<Piece>) returns (qs: seq<Piece>)
    requires Cut(ps)
    ensures Cut(qs) && Join(qs) == Join(ps) + " | " && Tokens(qs) == Tokens(ps) + [Pipe]
    ensures qs != [] && qs[|qs| - 1] == Gap(' ')
  {
    hide Cut, Join, Tokens;
    var spaced := PutSpace(ps);
    var bar := [Tok(Pipe), Gap(' ')];
    Bar(bar);
    CutConcat(spaced, bar);
    JoinConcat(spaced, bar);
    TokensConcat(spaced, bar);
    assert Join(ps) + " " + "| " == Join(ps) + " | ";
    qs := spaced + bar;
  }

  // ----- mkcommand -------------------------------------------------------------------------------------

  function Spaced(argv: seq<string>): string
    requires argv != []
  {
    if |argv| == 1 then argv[0] else Spaced(argv[..|argv| - 1]) + " " + argv[|argv| - 1]
  }

  /** The text after `mkcommand` has been called for one stage after the other. */
  function Command(stages: seq<seq<string>>): Option<string>
    requires forall k :: 0 <= k < |stages| ==> stages[k] != []
  {
    if stages == [] then None else Some(Extended(Command(stages[..|stages| - 1]), stages[|stages| - 1]))
  }

  function Extended(command: Option<string>, argv: seq<string>): string
    requires argv != []
  {
    (if command.Some? then command.value + " | " else "") + Spaced(argv)
  }

  method StrApp(dst: Option<string>, src: string) returns (r: string)
    ensures r == (if dst.Some? then dst.value else "") + src
  {
    if dst.None? {
      r := src;
    } else {
      r := dst.value + src;
    }
  }

  /** `mkcommand`: appends one stage of a pipeline to the text of a job. */
  method MkCommand(command: Option<string>, argv: seq<string>) returns (r: string)
    requires argv != []
    ensures r == Extended(command, argv)
  {
    var c := command;
    if c.Some? {
      var t := StrApp(c, " | ");
      c := Some(t);
    }
    ghost var prefix := if c.Some? then c.value else "";
    r := StrApp(c, argv[0]);
    var i := 1;
    assert argv[..1] == [argv[0]];
    while i < |argv|
      invariant 1 <= i <= |argv|
      invariant r == prefix + Spaced(argv[..i])
    {
      r := StrApp(Some(r), " ");
      r := StrApp(Some(r), argv[i]);
      assert argv[..i + 1][..i] == argv[..i];
      i := i + 1;
    }
    assert argv[..i] == argv;
  }

  function Words(argv: seq<string>): seq<Token> {
    if argv == [] then [] else Words(argv[..|argv| - 1]) + [Word(argv[|argv| - 1])]
  }

  /** The words of every stage, with a pipe between the stages. */
  function Piped(stages: seq<seq<string>>): seq<Token> {
    if stages == [] then []
    else if |stages| == 1 then Words(stages[0])
    else Piped(stages[..|stages| - 1]) + [Pipe] + Words(stages[|stages| - 1])
  }

  predicate AllPlain(argv: seq<string>) {
    forall i :: 0 <= i < |argv| ==> Plain(argv[i])
  }

  /** The text of one stage, put after a text that ends with a space. */
  lemma {:induction false} StagePieces(before: seq<Piece>, argv: seq<string>) returns (ps: seq<Piece>)
    requires Cut(before) && (before != [] ==> before[|before| - 1] == Gap(' '))
    requires argv != [] && AllPlain(argv)
    ensures Cut(ps) && Join(ps) == Join(before) + Spaced(argv) && Tokens(ps) == Tokens(before) + Words(argv)
    decreases |argv|
  {
    hide Cut, Join, Tokens, Plain;
    var n := |argv| - 1;
    if n == 0 {
      assert Words(argv[..0]) == [];
      ps := PutWord(before, argv[0]);
    } else {
      var init := StagePieces(before, argv[..n]);
      var spaced := PutSpace(init);
      ps := PutWord(spaced, argv[n]);
    }
  }

  lemma {:induction false} CommandPieces(stages: seq<seq<string>>) returns (ps: seq<Piece>)
    requires stages != [] && forall k :: 0 <= k < |stages| ==> stages[k] != [] && AllPlain(stages[k])
    ensures Cut(ps) && Join(ps) == Command(stages).value && Tokens(ps) == Piped(stages)
  {
    hide Join, Tokens, Spaced, Words, AllPlain;
    var n := |stages| - 1;
    if n == 0 {
      assert Command(stages[..0]) == None;
      NoPieces();
      ps := StagePieces([], stages[0]);
    } else {
      var init := CommandPieces(stages[..n]);
      var piped := PutPipe(init);
      ps := StagePieces(piped, stages[n]);
    }
  }

  lemma {:induction false} TokensPlain(ps: seq<Piece>)
    requires Cut(ps)
    ensures forall w :: Word(w) in Tokens(ps) ==> Plain(w)
  {
    if ps != [] {
      TokensPlain(ps[1..]);
    }
  }

  lemma {:induction false} WordsHold(argv: seq<string>, i: nat)
    requires i < |argv|
    ensures Word(argv[i]) in Words(argv)
  {
    if i < |argv| - 1 {
      WordsHold(argv[..|argv| - 1], i);
    }
  }

  lemma {:induction false} PipedHold(stages: seq<seq<string>>, k: nat, i: nat)
    requires k < |stages| && i < |stages[k]|
    ensures Word(stages[k][i]) in Piped(stages)
  {
    if k < |stages| - 1 {
      PipedHold(stages[..|stages| - 1], k, i);
    } else {
      WordsHold(stages[k], i);
    }
  }

  /** The tokenizer undoes `mkcommand` exactly when every word is one the tokenizer can produce. */
  lemma CommandExact(stages: seq<seq<string>>)
    requires stages != [] && forall k :: 0 <= k < |stages| ==> stages[k] != []
    ensures Tokens(Pieces(Command(stages).value)) == Piped(stages) <==>
            forall k :: 0 <= k < |stages| ==> AllPlain(stages[k])
  {
    if forall k :: 0 <= k < |stages| ==> AllPlain(stages[k]) {
      var ps := CommandPieces(stages);
      CutPieces(ps);
    }
    if Tokens(Pieces(Command(stages).value)) == Piped(stages) {
      PiecesCut(Command(stages).value);
      TokensPlain(Pieces(Command(stages).value));
      forall k, i | 0 <= k < |stages| && 0 <= i < |stages[k]|
        ensures Plain(stages[k][i])
      {
        PipedHold(stages, k, i);
      }
    }
  }
}
