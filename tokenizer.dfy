/** `tokenize_marathi` (app.py): pad every punctuation character with spaces,
    split on whitespace, keep the non-empty stripped pieces. The regular
    expression and Python's string methods are modelled at character level. */
module Tokenizer {

  /** Python's `str.split()` / `str.strip()` whitespace: the code points for
      which `str.isspace()` holds. */
  predicate IsWhitespace(c: char)
  {
    || '\U{9}' <= c <= '\U{D}'          // tab, line feed, vertical tab, form feed, carriage return
    || '\U{1C}' <= c <= '\U{20}'        // file, group, record, unit separators; space
    || c == '\U{85}' || c == '\U{A0}' || c == '\U{1680}'
    || '\U{2000}' <= c <= '\U{200A}'
    || c == '\U{2028}' || c == '\U{2029}' || c == '\U{202F}' || c == '\U{205F}' || c == '\U{3000}'
  }

  predicate NoWhitespace(s: string)
  {
    forall j :: 0 <= j < |s| ==> !IsWhitespace(s[j])
  }

  /** The character class of the regular expression at app.py:23 as the file
      spells it: the first three characters are Cyrillic er, ie and de, the
      UTF-8 bytes of the Devanagari danda read as code page 866. */
  const WrittenPunctuation: set<char> :=
    {'\U{440}', '\U{435}', '\U{434}', ',', '.', '!', '?', ';', ':', '\'', '"', '(', ')'}

  /** The punctuation class with the danda (U+0964) the regular expression
      evidently means. */
  const Punctuation: set<char> :=
    {'\U{964}', ',', '.', '!', '?', ';', ':', '\'', '"', '(', ')'}

  // ----- the source's steps -----

  /** `re.sub(r'([...])', r' \1 ', text)`: every character of `punct` becomes
      space, itself, space. */
  function Pad(punct: set<char>, text: string): string
  {
    if text == [] then []
    else (if text[0] in punct then [' ', text[0], ' '] else [text[0]]) + Pad(punct, text[1..])
  }

  /** The list holding `cur` unless it is empty. */
  function Emit(cur: string): seq<string>
  {
    if cur == [] then [] else [cur]
  }

  /** `str.split()` with `cur` the part of a field read so far. */
  function SplitFrom(s: string, cur: string): seq<string>
  {
    if s == [] then Emit(cur)
    else if IsWhitespace(s[0]) then Emit(cur) + SplitFrom(s[1..], [])
    else SplitFrom(s[1..], cur + [s[0]])
  }

  /** `str.split()`: the maximal runs of non-whitespace characters. */
  function Split(s: string): seq<string>
  {
    SplitFrom(s, [])
  }

  function TrimStart(s: string): string
  {
    if s != [] && IsWhitespace(s[0]) then TrimStart(s[1..]) else s
  }

  function TrimEnd(s: string): string
  {
    if s != [] && IsWhitespace(s[|s| - 1]) then TrimEnd(s[..|s| - 1]) else s
  }

  /** `str.strip()`. */
  function Strip(s: string): string
  {
    TrimEnd(TrimStart(s))
  }

  /** Padding inserts nothing but whitespace: the other characters of the
      text stay, in order. */
  lemma {:induction false} PadOnlyAddsWhitespace(punct: set<char>, text: string)
    ensures Squeeze(Pad(punct, text)) == Squeeze(text)
  {
    if text != [] {
      var c := text[0];
      var head := if c in punct then [' ', c, ' '] else [c];
      PadOnlyAddsWhitespace(punct, text[1..]);
      SqueezeAppend(head, Pad(punct, text[1..]));
      if c in punct {
        assert IsWhitespace(' ');
        assert [' '][1..] == [] && [c][1..] == [];
        assert Squeeze([' ']) == [];
        assert head[1..] == [c, ' '] && [c, ' '][1..] == [' '];
        assert Squeeze([c, ' ']) == Squeeze([c]);
        assert Squeeze(head) == Squeeze([c]);
      }
      SqueezeAppend([c], text[1..]);
      assert [c] + text[1..] == text;
    }
  }

  /** `TrimStart` drops a prefix of whitespace and stops at the first other character. */
  lemma {:induction false} TrimStartSuffix(s: string)
    ensures |TrimStart(s)| <= |s| && TrimStart(s) == s[|s| - |TrimStart(s)|..]
    ensures NoneButWhitespace(s[..|s| - |TrimStart(s)|])
    ensures TrimStart(s) == [] || !IsWhitespace(TrimStart(s)[0])
  {
    if s != [] && IsWhitespace(s[0]) {
      var r := TrimStart(s[1..]);
      TrimStartSuffix(s[1..]);
      assert s[1..][..|s| - 1 - |r|] == s[1..|s| - |r|];
    }
  }

  /** `TrimEnd` drops a suffix of whitespace and stops at the last other character. */
  lemma {:induction false} TrimEndPrefix(s: string)
    ensures |TrimEnd(s)| <= |s| && TrimEnd(s) == s[..|TrimEnd(s)|]
    ensures NoneButWhitespace(s[|TrimEnd(s)|..])
    ensures TrimEnd(s) == [] || !IsWhitespace(TrimEnd(s)[|TrimEnd(s)| - 1])
  {
    if s != [] && IsWhitespace(s[|s| - 1]) {
      var r := TrimEnd(s[..|s| - 1]);
      TrimEndPrefix(s[..|s| - 1]);
      assert r == s[..|s| - 1][..|r|] == s[..|r|];
      assert s[..|s| - 1][|r|..] == s[|r|..|s| - 1];
      assert forall j :: |r| <= j < |s| ==> IsWhitespace(s[j]) by {
        forall j | |r| <= j < |s| ensures IsWhitespace(s[j]) {
          if j < |s| - 1 { assert s[j] == s[|r|..|s| - 1][j - |r|]; }
        }
      }
    }
  }

  /** `str.strip()` keeps the stretch of `s` between its leading and
      trailing whitespace, which neither starts nor ends with whitespace. */
  lemma StripTrims(s: string)
    ensures exists i :: 0 <= i <= |s| - |Strip(s)| && Strip(s) == s[i..i + |Strip(s)|]
              && NoneButWhitespace(s[..i]) && NoneButWhitespace(s[i + |Strip(s)|..])
    ensures Strip(s) == [] || (!IsWhitespace(Strip(s)[0]) && !IsWhitespace(Strip(s)[|Strip(s)| - 1]))
  {
    var t := TrimStart(s);
    var r := TrimEnd(t);
    TrimStartSuffix(s);
    TrimEndPrefix(t);
    var i := |s| - |t|;
    assert r == s[i..i + |r|];
    assert s[i + |r|..] == t[|r|..];
  }

  // ----- character-level reference -----

  /** One left-to-right pass over `s`: whitespace ends the current word,
      a punctuation character ends it and is a token of its own, any other
      character extends it. */
  function Scan(punct: set<char>, s: string, cur: string): seq<string>
  {
    if s == [] then Emit(cur)
    else if IsWhitespace(s[0]) then Emit(cur) + Scan(punct, s[1..], [])
    else if s[0] in punct then Emit(cur) + [[s[0]]] + Scan(punct, s[1..], [])
    else Scan(punct, s[1..], cur + [s[0]])
  }

  /** The tokens of `text`. */
  function Tokens(punct: set<char>, text: string): seq<string>
  {
    Scan(punct, text, [])
  }

  /** The loop of `tokenize_marathi`, over the pieces of the padded text. */
  method TokenizeMarathi(punct: set<char>, text: string) returns (tokens: seq<string>)
    ensures tokens == Tokens(punct, text)
  {
    tokens := [];
    var padded := Pad(punct, text);
    var pieces := Split(padded);
    SplitWellFormed(padded, []);
    for i := 0 to |pieces|
      invariant tokens == pieces[..i]
    {
      var token := Strip(pieces[i]);
      StripNoWhitespace(pieces[i]);
      if token != [] {
        tokens := tokens + [token];
      }
    }
    assert pieces[..|pieces|] == pieces;
    PadSplitIsScan(punct, text, []);
  }

  // ----- the steps agree with the reference -----

  /** Splitting the padded text is the one-pass scan. */
  lemma {:induction false} PadSplitIsScan(punct: set<char>, text: string, cur: string)
    ensures SplitFrom(Pad(punct, text), cur) == Scan(punct, text, cur)
  {
    if text != [] {
      var c, rest := text[0], Pad(punct, text[1..]);
      PadSplitIsScan(punct, text[1..], []);
      PadSplitIsScan(punct, text[1..], cur + [c]);
      if c in punct {
        assert Pad(punct, text) == [' '] + ([c] + ([' '] + rest));
        SplitCons(' ', [c] + ([' '] + rest), cur);
        SplitCons(c, [' '] + rest, []);
        SplitCons(' ', rest, [] + [c]);
        SplitCons(' ', rest, []);
        assert [] + [c] == [c];
      } else {
        assert Pad(punct, text) == [c] + rest;
        SplitCons(c, rest, cur);
      }
    }
  }

  /** One step of `str.split()` on a string that starts with `c`. */
  lemma SplitCons(c: char, rest: string, cur: string)
    ensures SplitFrom([c] + rest, cur) ==
              if IsWhitespace(c) then Emit(cur) + SplitFrom(rest, []) else SplitFrom(rest, cur + [c])
  {
    assert ([c] + rest)[0] == c && ([c] + rest)[1..] == rest;
  }

  /** The pieces of `str.split()` are non-empty and hold no whitespace. */
  lemma {:induction false} SplitWellFormed(s: string, cur: string)
    requires NoWhitespace(cur)
    ensures forall k :: 0 <= k < |SplitFrom(s, cur)| ==>
              SplitFrom(s, cur)[k] != [] && NoWhitespace(SplitFrom(s, cur)[k])
  {
    if s != [] {
      if IsWhitespace(s[0]) {
        SplitWellFormed(s[1..], []);
      } else {
        SplitWellFormed(s[1..], cur + [s[0]]);
      }
    }
  }

  /** `str.strip()` leaves a string without whitespace as it is. */
  lemma StripNoWhitespace(s: string)
    requires NoWhitespace(s)
    ensures Strip(s) == s
  {
    if s != [] {
      assert !IsWhitespace(s[0]) && !IsWhitespace(s[|s| - 1]);
    }
  }

  // ----- properties of the tokens -----

  /** Concatenation of a list of strings. */
  function Concat(ss: seq<string>): string
  {
    if ss == [] then [] else ss[0] + Concat(ss[1..])
  }

  /** `s` with every whitespace character taken out, the rest in order. */
  function Squeeze(s: string): string
  {
    if s == [] then []
    else if IsWhitespace(s[0]) then Squeeze(s[1..])
    else [s[0]] + Squeeze(s[1..])
  }

  lemma {:induction false} SqueezeAppend(a: string, b: string)
    ensures Squeeze(a + b) == Squeeze(a) + Squeeze(b)
  {
    if a == [] {
      assert a + b == b;
    } else {
      assert (a + b)[0] == a[0] && (a + b)[1..] == a[1..] + b;
      SqueezeAppend(a[1..], b);
    }
  }

  lemma {:induction false} ConcatAppend(a: seq<string>, b: seq<string>)
    ensures Concat(a + b) == Concat(a) + Concat(b)
  {
    if a == [] {
      assert a + b == b;
    } else {
      assert (a + b)[0] == a[0];
      assert (a + b)[1..] == a[1..] + b;
      ConcatAppend(a[1..], b);
    }
  }

  lemma ConcatSingle(t: string)
    ensures Concat([t]) == t
  {
    assert [t][1..] == [];
  }

  /** The words of a scan are `cur` followed by the text's non-whitespace characters. */
  lemma {:induction false} ScanConcat(punct: set<char>, s: string, cur: string)
    ensures Concat(Scan(punct, s, cur)) == cur + Squeeze(s)
  {
    var e := Emit(cur);
    assert Concat(e) == cur by {
      if cur != [] { ConcatSingle(cur); }
    }
    if s != [] {
      var c, tail := s[0], s[1..];
      if IsWhitespace(c) {
        ScanConcat(punct, tail, []);
        ConcatAppend(e, Scan(punct, tail, []));
        assert Squeeze(s) == Squeeze(tail);
      } else if c in punct {
        var after := Scan(punct, tail, []);
        assert Scan(punct, s, cur) == e + [[c]] + after;
        ScanConcat(punct, tail, []);
        ConcatSingle([c]);
        ConcatAppend(e, [[c]]);
        ConcatAppend(e + [[c]], after);
        assert Squeeze(s) == [c] + Squeeze(tail);
        assert Concat(after) == [] + Squeeze(tail);
        assert cur + [c] + Squeeze(tail) == cur + ([c] + Squeeze(tail));
      } else {
        assert Scan(punct, s, cur) == Scan(punct, tail, cur + [c]);
        ScanConcat(punct, tail, cur + [c]);
        assert Squeeze(s) == [c] + Squeeze(tail);
        assert (cur + [c]) + Squeeze(tail) == cur + ([c] + Squeeze(tail));
      }
    }
  }

  /** Joining the tokens gives back the text with its whitespace removed. */
  lemma TokensConcat(punct: set<char>, text: string)
    ensures Concat(Tokens(punct, text)) == Squeeze(text)
  {
    ScanConcat(punct, text, []);
  }

  /** Each token is non-empty, holds no whitespace, and either holds no
      punctuation at all or is a single punctuation character. */
  lemma {:induction false} ScanTokensWellFormed(punct: set<char>, s: string, cur: string)
    requires NoWhitespace(cur)
    requires forall j :: 0 <= j < |cur| ==> cur[j] !in punct
    ensures forall k :: 0 <= k < |Scan(punct, s, cur)| ==>
              var tok := Scan(punct, s, cur)[k];
              && tok != []
              && NoWhitespace(tok)
              && forall j :: 0 <= j < |tok| && tok[j] in punct ==> tok == [tok[j]]
  {
    if s != [] {
      if IsWhitespace(s[0]) || s[0] in punct {
        ScanTokensWellFormed(punct, s[1..], []);
      } else {
        ScanTokensWellFormed(punct, s[1..], cur + [s[0]]);
      }
    }
  }

  /** No token is empty or holds whitespace, and every punctuation character
      is a token by itself, whatever surrounds it. */
  lemma TokensWellFormed(punct: set<char>, text: string)
    ensures forall k :: 0 <= k < |Tokens(punct, text)| ==>
              Tokens(punct, text)[k] != [] && NoWhitespace(Tokens(punct, text)[k])
    ensures forall k, j ::
              (0 <= k < |Tokens(punct, text)| && 0 <= j < |Tokens(punct, text)[k]| && Tokens(punct, text)[k][j] in punct)
              ==> Tokens(punct, text)[k] == [Tokens(punct, text)[k][j]]
  {
    ScanTokensWellFormed(punct, text, []);
  }

  /** Text that is empty or only whitespace, and only such text, has no tokens. */
  lemma NoTokensIffBlank(punct: set<char>, text: string)
    ensures Tokens(punct, text) == [] <==> NoneButWhitespace(text)
  {
    TokensConcat(punct, text);
    TokensWellFormed(punct, text);
    SqueezeEmpty(text);
    var ts := Tokens(punct, text);
    if ts != [] {
      assert Concat(ts) == ts[0] + Concat(ts[1..]);
    }
  }

  predicate NoneButWhitespace(s: string)
  {
    forall j :: 0 <= j < |s| ==> IsWhitespace(s[j])
  }

  lemma {:induction false} SqueezeEmpty(s: string)
    ensures Squeeze(s) == [] <==> NoneButWhitespace(s)
  {
    if s != [] {
      SqueezeEmpty(s[1..]);
      assert forall j :: 1 <= j < |s| ==> s[j] == s[1..][j - 1];
    }
  }

  /** Holds neither whitespace nor a character of `punct`. */
  predicate Plain(punct: set<char>, s: string)
  {
    forall j :: 0 <= j < |s| ==> !IsWhitespace(s[j]) && s[j] !in punct
  }

  /** A plain stretch extends the word being read. */
  lemma {:induction false} ScanPlain(punct: set<char>, w: string, cur: string)
    requires Plain(punct, w)
    ensures Scan(punct, w, cur) == Emit(cur + w)
  {
    if w == [] {
      assert cur + w == cur;
    } else {
      ScanPlain(punct, w[1..], cur + [w[0]]);
      assert cur + [w[0]] + w[1..] == cur + w;
    }
  }

  /** A run of characters that are neither whitespace nor punctuation is one token. */
  lemma WordIsOneToken(punct: set<char>, w: string)
    requires w != [] && Plain(punct, w)
    ensures Tokens(punct, w) == [w]
  {
    ScanPlain(punct, w, []);
    assert [] + w == w;
  }

  /** A separator in the middle of the text ends the word before it. */
  lemma {:induction false} ScanSplitAt(punct: set<char>, a: string, c: char, b: string, cur: string)
    requires IsWhitespace(c) || c in punct
    ensures Scan(punct, a + [c] + b, cur) ==
              Scan(punct, a, cur) + (if IsWhitespace(c) then [] else [[c]]) + Tokens(punct, b)
  {
    var mid: seq<string> := if IsWhitespace(c) then [] else [[c]];
    if a == [] {
      assert a + [c] + b == [c] + b;
      assert ([c] + b)[1..] == b;
    } else {
      var x := a[0];
      assert (a + [c] + b)[0] == x && (a + [c] + b)[1..] == a[1..] + [c] + b;
      ScanSplitAt(punct, a[1..], c, b, if IsWhitespace(x) || x in punct then [] else cur + [x]);
      var rest := Scan(punct, a[1..], if IsWhitespace(x) || x in punct then [] else cur + [x]);
      if IsWhitespace(x) {
        assert Emit(cur) + (rest + mid + Tokens(punct, b)) == Emit(cur) + rest + mid + Tokens(punct, b);
      } else if x in punct {
        assert Emit(cur) + [[x]] + (rest + mid + Tokens(punct, b))
            == Emit(cur) + [[x]] + rest + mid + Tokens(punct, b);
      }
    }
  }

  /** The tokens of text joined at a whitespace character are the tokens of
      the two sides; joined at a punctuation character, that character is a
      token between them. */
  lemma TokensSplitAt(punct: set<char>, a: string, c: char, b: string)
    ensures IsWhitespace(c) ==> Tokens(punct, a + [c] + b) == Tokens(punct, a) + Tokens(punct, b)
    ensures c in punct && !IsWhitespace(c) ==>
              Tokens(punct, a + [c] + b) == Tokens(punct, a) + [[c]] + Tokens(punct, b)
  {
    if IsWhitespace(c) || c in punct {
      ScanSplitAt(punct, a, c, b, []);
    }
    if IsWhitespace(c) {
      assert Tokens(punct, a) + [] == Tokens(punct, a);
    }
  }

  // ----- examples -----

  lemma StopExample()
    ensures Scan(Punctuation, "आहे.", "") == ["आहे", "."]
  {
    var s, p := "आहे.", Punctuation;
    assert s[3..] == ['.'] && s[2..] == ['े', '.'] && s[1..] == ['ह', 'े', '.'];
    assert Scan(p, s[3..], "आहे") == ["आहे", "."];
    assert "आह" + ['े'] == "आहे";
    assert Scan(p, s[2..], "आह") == ["आहे", "."];
    assert "आ" + ['ह'] == "आह";
    assert Scan(p, s[1..], "आ") == ["आहे", "."];
    assert s[0] == 'आ' && "" + ['आ'] == "आ";
  }

  /** Commas and full stops are split off the words they touch. */
  lemma CommaAndStopExample()
    ensures Tokens(Punctuation, "राम,आहे.") == ["राम", ",", "आहे", "."]
  {
    var s, p := "राम,आहे.", Punctuation;
    StopExample();
    assert s[4..] == "आहे." && s[3..] == [','] + s[4..];
    assert s[2..] == ['म'] + s[3..] && s[1..] == ['ा'] + s[2..];
    assert Scan(p, s[3..], "राम") == ["राम", ",", "आहे", "."];
    assert "रा" + ['म'] == "राम";
    assert Scan(p, s[2..], "रा") == ["राम", ",", "आहे", "."];
    assert "र" + ['ा'] == "रा";
    assert Scan(p, s[1..], "र") == ["राम", ",", "आहे", "."];
    assert s[0] == 'र' && "" + ['र'] == "र";
  }

  /** With the class as the file spells it, a danda stays glued to its word. */
  lemma WrittenClassKeepsDanda()
    ensures Tokens(WrittenPunctuation, "राम।") == ["राम।"]
  {
    var s, p := "राम।", WrittenPunctuation;
    assert s == ['र', 'ा', 'म', '।'];
    assert Plain(p, s);
    WordIsOneToken(p, s);
  }

  /** With the danda in the class, it becomes a token of its own. */
  lemma DandaIsolated(text: string)
    ensures Tokens(Punctuation, "राम।") == ["राम", "।"]
    ensures forall k, j ::
              (0 <= k < |Tokens(Punctuation, text)| && 0 <= j < |Tokens(Punctuation, text)[k]| &&
               Tokens(Punctuation, text)[k][j] == '।')
              ==> Tokens(Punctuation, text)[k] == ['।']
  {
    var s, p := "राम।", Punctuation;
    assert '।' in p && !IsWhitespace('।');
    assert s[3..] == ['।'] && s[2..] == ['म', '।'] && s[1..] == ['ा', 'म', '।'];
    assert Scan(p, s[3..], "राम") == ["राम", "।"];
    assert "रा" + ['म'] == "राम";
    assert Scan(p, s[2..], "रा") == ["राम", "।"];
    assert "र" + ['ा'] == "रा";
    assert Scan(p, s[1..], "र") == ["राम", "।"];
    assert s[0] == 'र' && "" + ['र'] == "र";
    TokensWellFormed(Punctuation, text);
  }
}
