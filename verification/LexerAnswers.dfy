/** Known answers of the tokenizer and of `mkcommand`, as literal texts: every operator, next to words and to each
    other, all six characters that are skipped, and a tab inside a word, which does not end it. */
module LexerAnswers {
  import opened Lexer
  import opened Tokenizer

  /** What is skipped between tokens: ASCII space, tab, line feed, vertical tab, form feed and carriage return. */
  lemma SpacesAre(c: char)
    ensures IsSpace(c) <==> c as int in {32, 9, 10, 11, 12, 13}
  {
    assert '\t' as int == 9 && '\r' as int == 13;
  }

  /** Of these only the space ends a word. */
  lemma DelimitersAre(c: char)
    ensures Delimiter(c) <==> c in " |&<>;!"
  {
    var all := " |&<>;!";
    assert all[0] == ' ' && all[1] == '|' && all[2] == '&' && all[3] == '<' && all[4] == '>' && all[5] == ';' &&
           all[6] == '!';
  }

  function TokensOf(line: string): seq<Token> {
    Tokens(Pieces(line))
  }

  lemma FirstPiece(p: Piece, rest: string, line: string)
    requires Proper(p) && Ends(p, rest) && line == Text(p) + rest
    ensures Pieces(line) == [p] + Pieces(rest)
  {
    FirstIs(p, rest);
    assert line[|Text(p)|..] == rest;
  }

  lemma Next(p: Piece, rest: string, line: string)
    requires Proper(p) && Ends(p, rest) && line == Text(p) + rest
    ensures TokensOf(line) == (if p.Tok? then [p.token] else []) + TokensOf(rest)
  {
    FirstPiece(p, rest, line);
    assert Pieces(line)[1..] == Pieces(rest);
  }

  lemma NoTokens()
    ensures TokensOf("") == []
  {
  }

  lemma WordsTokens()
    ensures TokensOf(" \tls\t-l|\rwc &") == [Word("ls\t-l"), Pipe, Word("wc"), BgJob]
  {
    hide TokensOf;
    NoTokens();
    Next(Tok(BgJob), "", "&");
    Next(Gap(' '), "&", " &");
    Next(Tok(Word("wc")), " &", "wc &");
    Next(Gap('\r'), "wc &", "\rwc &");
    Next(Tok(Pipe), "\rwc &", "|\rwc &");
    Next(Tok(Word("ls\t-l")), "|\rwc &", "ls\t-l|\rwc &");
    Next(Gap('\t'), "ls\t-l|\rwc &", "\tls\t-l|\rwc &");
    Next(Gap(' '), "\tls\t-l|\rwc &", " \tls\t-l|\rwc &");
  }

  lemma DoubledTokens()
    ensures TokensOf("a&&&b|||c") == [Word("a"), And, BgJob, Word("b"), Or, Pipe, Word("c")]
  {
    hide TokensOf;
    NoTokens();
    Next(Tok(Word("c")), "", "c");
    Next(Tok(Pipe), "c", "|c");
    Next(Tok(Or), "|c", "|||c");
    Next(Tok(Word("b")), "|||c", "b|||c");
    Next(Tok(BgJob), "b|||c", "&b|||c");
    Next(Tok(And), "&b|||c", "&&&b|||c");
    Next(Tok(Word("a")), "&&&b|||c", "a&&&b|||c");
  }

  lemma SingleTokens()
    ensures TokensOf("!a<i>>o;") == [Bang, Word("a"), Input, Word("i"), Output, Output, Word("o"), Colon]
  {
    hide TokensOf;
    NoTokens();
    Next(Tok(Colon), "", ";");
    Next(Tok(Word("o")), ";", "o;");
    Next(Tok(Output), "o;", ">o;");
    Next(Tok(Output), ">o;", ">>o;");
    Next(Tok(Word("i")), ">>o;", "i>>o;");
    Next(Tok(Input), "i>>o;", "<i>>o;");
    Next(Tok(Word("a")), "<i>>o;", "a<i>>o;");
    Next(Tok(Bang), "a<i>>o;", "!a<i>>o;");
  }


  const SHORT: seq<Piece> := [Tok(Word("a")), Gap(' '), Tok(Word("b")), Tok(And)]

  lemma ShortPieces()
    ensures Pieces("a b&&") == SHORT
  {
    hide Pieces, First;
    FirstPiece(Tok(And), "", "&&");
    FirstPiece(Tok(Word("b")), "&&", "b&&");
    FirstPiece(Gap(' '), "b&&", " b&&");
    FirstPiece(Tok(Word("a")), " b&&", "a b&&");
    NoPiecesOf();
  }

  lemma NoPiecesOf()
    ensures Pieces("") == []
  {
  }

  /** Words stay, everything else is overwritten. */
  lemma ShortLeft()
    ensures Blanked(SHORT) == ['a', NUL, 'b', NUL, NUL] && Tokens(SHORT) == [Word("a"), Word("b"), And]
  {
    hide Blanked, Tokens;
    var a, b, both := [SHORT[0]], [SHORT[0], SHORT[1]], [SHORT[0], SHORT[1], SHORT[2]];
    assert [] + [SHORT[0]] == a && a + [SHORT[1]] == b && b + [SHORT[2]] == both && both + [SHORT[3]] == SHORT;
    Nothing();
    BlankedStep([], SHORT[0]);
    BlankedStep(a, SHORT[1]);
    BlankedStep(b, SHORT[2]);
    BlankedStep(both, SHORT[3]);
    assert Left(SHORT[1]) == [NUL] && Left(SHORT[3]) == [NUL, NUL];
  }

  lemma Nothing()
    ensures Blanked([]) == "" && Tokens([]) == []
  {
  }

  /** A run of the tokenizer: the line is left in pieces, each ended by a NUL, and the vector points at them. */
  method Run() returns (s: array<char>, tokvec: array<Slot>)
    ensures s[..] == ['a', NUL, 'b', NUL, NUL, NUL, '?'] && tokvec.Length > 3
    ensures tokvec[0].At? && tokvec[0].start <= 7 && CString(s[..], tokvec[0].start) == "a"
    ensures tokvec[1].At? && tokvec[1].start <= 7 && CString(s[..], tokvec[1].start) == "b"
    ensures tokvec[2] == Sign(And) && tokvec[3] == Null && NUL as int == 0
  {
    hide Pieces, Blanked, Tokens, CString;
    s := new char[7]['a', ' ', 'b', '&', '&', NUL, '?'];
    ghost var line := "a b&&";
    assert s[..5] == line;
    assert s[|line|..] == [NUL, '?'];
    ShortPieces();
    ShortLeft();
    var ntoks;
    tokvec, ntoks := Tokenize(s, line);
    assert ntoks == 3;
  }

  lemma CommandText()
    ensures Command([["ls", "-l"], ["wc"]]) == Some("ls -l | wc")
    ensures Piped([["ls", "-l"], ["wc"]]) == [Word("ls"), Word("-l"), Pipe, Word("wc")]
  {
    var ls, wc := ["ls", "-l"], ["wc"];
    var one := [ls];
    assert [ls, wc][..1] == one && one[..0] == [];
    assert ls[..1] == ["ls"] && wc[..0] == [] && ["ls"][..0] == [];
    assert Words(["ls"]) == [Word("ls")] && Words(wc) == [Word("wc")];
    assert Words(ls) == [Word("ls"), Word("-l")];
    assert Spaced(ls) == "ls" + " " + "-l" && Spaced(wc) == "wc";
    assert "ls" + " " + "-l" == "ls -l" && "ls -l" + " | " + "wc" == "ls -l | wc";
    assert Command(one) == Some(Extended(None, ls)) && Extended(None, ls) == "ls -l" by {
      assert "" + Spaced(ls) == Spaced(ls);
    }
  }
}
