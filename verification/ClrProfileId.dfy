/** Identifiers of collector profiles, and their escaped notation. */
module ClrProfileIds {
  import opened Wrappers

  const HYPHEN := "--"
  const DOT := "-dot-"
  const AT := "-at-"

  // ---------------------------------------------------------------- escaping

  /** How many characters starting with a hyphen are escaped together: an escape sequence, or the
      hyphen alone. */
  function UnitLength(s: string): (k: nat)
    requires s != [] && s[0] == '-'
    ensures 1 <= k <= |s| && s[k - 1] == '-'
  {
    if HYPHEN <= s then 2 else if DOT <= s then 5 else if AT <= s then 4 else 1
  }

  /** An escape sequence in the text is written after one more hyphen; a lone hyphen stays. */
  function EncodeUnit(s: string): string
    requires s != [] && s[0] == '-'
  {
    var k := UnitLength(s);
    if k == 1 then "-" else "-" + s[..k]
  }

  function Encode(s: string): string {
    if s == [] then ""
    else if s[0] == '@' then AT + Encode(s[1..])
    else if s[0] == '.' then DOT + Encode(s[1..])
    else if s[0] == '-' then EncodeUnit(s) + Encode(s[UnitLength(s)..])
    else [s[0]] + Encode(s[1..])
  }

  function Decode(s: string): string {
    if s == [] then ""
    else if s[0] == '-' then
      if HYPHEN <= s then "-" + Decode(s[2..])
      else if DOT <= s then "." + Decode(s[5..])
      else if AT <= s then "@" + Decode(s[4..])
      else "-" + Decode(s[1..])
    else [s[0]] + Decode(s[1..])
  }

  /** The index loop over the text. */
  method EncodeText(text: string) returns (out: string)
    ensures out == Encode(text)
  {
    hide Encode;
    out := "";
    var i := 0;
    while i < |text|
      invariant 0 <= i <= |text| && Encode(text) == out + Encode(text[i..])
      decreases |text| - i
    {
      var c := text[i];
      var piece, k := [c], 1;
      EncodeFirst(text[i..]);
      if c == '@' {
        piece := AT;
      } else if c == '.' {
        piece := DOT;
      } else if c == '-' {
        piece, k := EncodeUnit(text[i..]), UnitLength(text[i..]);
      }
      assert text[i..][k..] == text[i + k..];
      Joins(out, piece, Encode(text[i + k..]));
      out := out + piece;
      i := i + k;
    }
    assert text[|text|..] == [];
    EncodeNothing();
    SameLength(text);
    if |out| == |text| {
      out := text;
    }
  }

  lemma EncodeFirst(s: string)
    requires s != []
    ensures Encode(s) == if s[0] == '@' then AT + Encode(s[1..])
                         else if s[0] == '.' then DOT + Encode(s[1..])
                         else if s[0] == '-' then EncodeUnit(s) + Encode(s[UnitLength(s)..])
                         else [s[0]] + Encode(s[1..])
  {
  }

  lemma EncodeNothing()
    ensures Encode("") == ""
  {
  }

  lemma Joins(a: string, b: string, c: string)
    ensures (a + b) + c == a + (b + c)
  {
  }

  method DecodeText(text: string) returns (out: string)
    ensures out == Decode(text)
  {
    hide Decode;
    out := "";
    var i := 0;
    while i < |text|
      invariant 0 <= i <= |text| && out + Decode(text[i..]) == Decode(text)
      decreases |text| - i
    {
      var rest := text[i..];
      DecodeFirst(rest);
      var c, k := text[i], 1;
      if c == '-' {
        if HYPHEN <= rest {
          k := 2;
        } else if DOT <= rest {
          c, k := '.', 5;
        } else if AT <= rest {
          c, k := '@', 4;
        }
      }
      assert rest[k..] == text[i + k..];
      Joins(out, [c], Decode(text[i + k..]));
      out := out + [c];
      i := i + k;
    }
    assert text[|text|..] == [];
    DecodeNothing();
    SameLength(text);
    if |out| == |text| {
      out := text;
    }
  }

  lemma DecodeFirst(s: string)
    requires s != []
    ensures Decode(s) == if s[0] == '-' && HYPHEN <= s then "-" + Decode(s[2..])
                         else if s[0] == '-' && DOT <= s then "." + Decode(s[5..])
                         else if s[0] == '-' && AT <= s then "@" + Decode(s[4..])
                         else [s[0]] + Decode(s[1..])
  {
  }

  lemma DecodeNothing()
    ensures Decode("") == ""
  {
  }

  /** Neither direction changes a text without changing its length. */
  lemma {:induction false} SameLength(s: string)
    ensures |Encode(s)| >= |s| && (|Encode(s)| == |s| ==> Encode(s) == s)
    ensures |Decode(s)| <= |s| && (|Decode(s)| == |s| ==> Decode(s) == s)
    decreases |s|
  {
    if s != [] {
      var k := if s[0] != '-' then 1 else UnitLength(s);
      SameLength(s[k..]);
      if s[0] == '-' && k > 1 {
        SameLength(s[k..]);
        assert s[..k] == HYPHEN || s[..k] == DOT || s[..k] == AT;
      }
    }
  }

  // ---------------------------------------------------------------- what is safe to escape

  predicate Special(c: char) {
    c == '-' || c == '.' || c == '@'
  }

  /** Text that, right after a hyphen, would be read as part of an escape sequence. */
  predicate Clashes(s: string) {
    || (s != [] && Special(s[0]))
    || ("dot" <= s && |s| > 3 && Special(s[3]))
    || ("at" <= s && |s| > 2 && Special(s[2]))
  }

  /** No unit that ends with a hyphen is followed by clashing text. */
  predicate Escapable(s: string) {
    if s == [] then true
    else if s[0] != '-' then Escapable(s[1..])
    else !Clashes(s[UnitLength(s)..]) && Escapable(s[UnitLength(s)..])
  }

  // ---------------------------------------------------------------- decoding what was encoded

  function Recoded(s: string): string {
    Decode(Encode(s))
  }

  /** What becomes of a text after a hyphen that the decoder has not consumed. */
  function AfterHyphen(s: string): string {
    Decode("-" + Encode(s))
  }

  lemma DecodeEscape(rest: string)
    ensures Decode(HYPHEN + rest) == "-" + Decode(rest)
    ensures Decode(DOT + rest) == "." + Decode(rest)
    ensures Decode(AT + rest) == "@" + Decode(rest)
  {
    assert (HYPHEN + rest)[2..] == rest && HYPHEN <= HYPHEN + rest;
    assert (DOT + rest)[5..] == rest && DOT <= DOT + rest && DOT[1] == 'd';
    assert (AT + rest)[4..] == rest && AT <= AT + rest && AT[1] == 'a';
    assert !(HYPHEN <= DOT + rest) by { assert (DOT + rest)[1] == 'd'; }
    assert !(HYPHEN <= AT + rest) && !(DOT <= AT + rest) by { assert (AT + rest)[1] == 'a'; }
  }

  lemma DecodePlain(word: string, rest: string)
    requires forall i :: 0 <= i < |word| ==> word[i] != '-'
    ensures Decode(word + rest) == word + Decode(rest)
  {
    if word == [] {
      assert word + rest == rest;
    } else {
      assert (word + rest)[0] == word[0] && (word + rest)[1..] == word[1..] + rest;
      assert Decode(word + rest) == [word[0]] + Decode(word[1..] + rest);
      hide Decode;
      DecodePlain(word[1..], rest);
      Joins([word[0]], word[1..], Decode(rest));
      assert [word[0]] + word[1..] == word;
    }
  }

  lemma RecodedPlain(s: string)
    requires s != [] && s[0] != '-'
    ensures Recoded(s) == [s[0]] + Recoded(s[1..])
  {
    DecodeEscape(Encode(s[1..]));
    DecodePlain([s[0]], Encode(s[1..]));
  }

  /** The decoder gives back a unit up to its last hyphen, which it leaves for what follows. */
  lemma RecodedUnit(s: string)
    requires s != [] && s[0] == '-'
    ensures Recoded(s) == s[..UnitLength(s) - 1] + AfterHyphen(s[UnitLength(s)..])
  {
    hide *;
    var k := UnitLength(s);
    UnitCases(s);
    if k == 1 {
      LoneUnit(s);
    } else {
      RecodedEscape(s);
      EscapeShapes();
      if k == 2 {
        EscapedUnit(HYPHEN, "", Encode(s[k..]));
      } else if k == 5 {
        EscapedUnit(DOT, "dot", Encode(s[k..]));
      } else {
        EscapedUnit(AT, "at", Encode(s[k..]));
      }
    }
  }

  lemma LoneUnit(s: string)
    requires s != [] && s[0] == '-' && UnitLength(s) == 1
    ensures Recoded(s) == AfterHyphen(s[1..])
  {
  }

  lemma RecodedEscape(s: string)
    requires s != [] && s[0] == '-' && UnitLength(s) > 1
    ensures var k := UnitLength(s);
            && Recoded(s) == Decode("-" + s[..k] + Encode(s[k..]))
            && AfterHyphen(s[k..]) == Decode("-" + Encode(s[k..]))
  {
    hide Decode;
  }

  lemma EscapeShapes()
    ensures HYPHEN == "-" + "" + "-" && DOT == "-" + "dot" + "-" && AT == "-" + "at" + "-"
    ensures HYPHEN[..1] == "-" && DOT[..4] == "-" + "dot" && AT[..3] == "-" + "at"
  {
  }

  lemma EscapedUnit(escape: string, word: string, rest: string)
    requires escape == "-" + word + "-" && forall i :: 0 <= i < |word| ==> word[i] != '-'
    ensures Decode("-" + escape + rest) == "-" + word + Decode("-" + rest)
  {
    assert "-" + escape + rest == HYPHEN + (word + ("-" + rest));
    DecodeEscape(word + ("-" + rest));
    DecodePlain(word, "-" + rest);
    Joins("-", word, Decode("-" + rest));
  }

  /** An encoded text starts with a hyphen exactly when the text starts with a special character. */
  lemma EncodeStarts(s: string)
    requires s != []
    ensures Encode(s) != [] && (Encode(s)[0] == '-' <==> Special(s[0]))
    ensures !Special(s[0]) ==> Encode(s) == [s[0]] + Encode(s[1..])
  {
  }

  lemma NoClash(s: string)
    requires !Clashes(s)
    ensures AfterHyphen(s) == "-" + Recoded(s)
  {
    var e := "-" + Encode(s);
    assert e[1..] == Encode(s);
    if s != [] {
      EncodeStarts(s);
      if |s| > 1 {
        EncodeStarts(s[1..]);
        assert s[1..][1..] == s[2..];
        if |s| > 2 {
          EncodeStarts(s[2..]);
          assert s[2..][1..] == s[3..];
          if |s| > 3 {
            EncodeStarts(s[3..]);
          }
        }
      }
    }
    NotEscape(e, s);
  }

  /** The first characters of an encoded text decide that no escape sequence starts before it. */
  lemma NotEscape(e: string, s: string)
    requires !Clashes(s) && e != [] && e[0] == '-'
    requires s == [] ==> |e| == 1
    requires |s| > 0 ==> |e| > 1 && e[1] == s[0]
    requires |s| == 1 ==> |e| == 2
    requires |s| > 1 ==> |e| > 2 && if Special(s[1]) then e[2] == '-' else e[2] == s[1]
    requires |s| == 2 && !Special(s[1]) ==> |e| == 3
    requires |s| > 2 && !Special(s[1]) ==> |e| > 3 && if Special(s[2]) then e[3] == '-' else e[3] == s[2]
    requires |s| == 3 && !Special(s[1]) && !Special(s[2]) ==> |e| == 4
    requires |s| > 3 && !Special(s[1]) && !Special(s[2]) ==>
               |e| > 4 && if Special(s[3]) then e[4] == '-' else e[4] == s[3]
    ensures !(HYPHEN <= e) && !(DOT <= e) && !(AT <= e)
  {
    assert HYPHEN[1] == '-';
    assert DOT[1] == 'd' && DOT[2] == 'o' && DOT[3] == 't' && DOT[4] == '-';
    assert AT[1] == 'a' && AT[2] == 't' && AT[3] == '-';
    assert |s| > 3 && s[0] == 'd' && s[1] == 'o' && s[2] == 't' ==> "dot" <= s;
    assert |s| > 2 && s[0] == 'a' && s[1] == 't' ==> "at" <= s;
  }

  /** After a hyphen, clashing text is not given back. */
  lemma ClashAfterHyphen(s: string)
    requires Clashes(s)
    ensures s[0] == '.' || s[0] == '@' ==> |AfterHyphen(s)| > 1 && AfterHyphen(s)[1] != s[0] && AfterHyphen(s)[1] != '-'
    ensures s[0] == '-' && UnitLength(s) <= 2 ==>
              AfterHyphen(s) == s[..UnitLength(s)] + Recoded(s[UnitLength(s)..])
    ensures s[0] == '-' && UnitLength(s) > 2 ==> |AfterHyphen(s)| > 1 && AfterHyphen(s)[1] != '-'
    ensures !Special(s[0]) ==> AfterHyphen(s) != [] && AfterHyphen(s)[0] != '-'
  {
    assert s != [];
    hide AfterHyphen, Recoded, Clashes;
    if s[0] == '.' {
      EscapedAfterHyphen(s, "dot");
    } else if s[0] == '@' {
      EscapedAfterHyphen(s, "at");
    } else if s[0] == '-' {
      UnitAfterHyphen(s);
    } else {
      WordAfterHyphen(s);
    }
  }

  /** A dot or an at sign after a hyphen: the escape sequence loses its own hyphen to that one. */
  lemma EscapedAfterHyphen(s: string, word: string)
    requires s != [] && ((s[0] == '.' && word == "dot") || (s[0] == '@' && word == "at"))
    ensures |AfterHyphen(s)| > 1 && AfterHyphen(s)[1] == word[0]
  {
    var rest := "-" + Encode(s[1..]);
    assert Encode(s) == (if s[0] == '.' then DOT else AT) + Encode(s[1..]);
    hide Encode, Decode;
    Regroup(word, Encode(s[1..]));
    DecodeEscape(word + rest);
    DecodePlain(word, rest);
  }

  lemma Regroup(word: string, rest: string)
    ensures "-" + (("-" + word + "-") + rest) == HYPHEN + (word + ("-" + rest))
    ensures word == "dot" ==> "-" + word + "-" == DOT
    ensures word == "at" ==> "-" + word + "-" == AT
  {
  }

  lemma UnitAfterHyphen(s: string)
    requires s != [] && s[0] == '-'
    ensures UnitLength(s) <= 2 ==> AfterHyphen(s) == s[..UnitLength(s)] + Recoded(s[UnitLength(s)..])
    ensures UnitLength(s) > 2 ==> |AfterHyphen(s)| > 1 && AfterHyphen(s)[1] != '-'
  {
    hide *;
    var k := UnitLength(s);
    var rest := Encode(s[k..]);
    UnitCases(s);
    if k == 1 {
      LoneAfterHyphen(s);
    } else {
      EscapeAfterHyphen(s, s[..k]);
      DecodeEscape(rest);
      RecodedIs(s[k..]);
      Joins("-", "-", Recoded(s[k..]));
    }
  }

  lemma UnitCases(s: string)
    requires s != [] && s[0] == '-'
    ensures var k := UnitLength(s);
            || k == 1 || (k == 2 && s[..k] == HYPHEN && HYPHEN == "-" + "-") || (k == 5 && s[..k] == DOT)
            || (k == 4 && s[..k] == AT)
  {
  }

  lemma RecodedIs(s: string)
    ensures Recoded(s) == Decode(Encode(s))
  {
  }

  lemma LoneAfterHyphen(s: string)
    requires s != [] && s[0] == '-' && UnitLength(s) == 1
    ensures AfterHyphen(s) == s[..1] + Recoded(s[1..])
  {
    var rest := Encode(s[1..]);
    assert "-" + Encode(s) == HYPHEN + rest;
    DecodeEscape(rest);
  }

  lemma EscapeAfterHyphen(s: string, escape: string)
    requires s != [] && s[0] == '-' && UnitLength(s) > 1 && s[..UnitLength(s)] == escape
    ensures AfterHyphen(s) == "-" + Decode(escape + Encode(s[UnitLength(s)..]))
  {
    hide *;
    var rest := Encode(s[UnitLength(s)..]);
    EscapeEncoded(s);
    Hyphenated(s[..UnitLength(s)], rest);
    DecodeEscape(escape + rest);
  }

  lemma EscapeEncoded(s: string)
    requires s != [] && s[0] == '-' && UnitLength(s) > 1
    ensures AfterHyphen(s) == Decode("-" + ("-" + s[..UnitLength(s)] + Encode(s[UnitLength(s)..])))
  {
    hide Decode;
  }

  lemma Hyphenated(escape: string, rest: string)
    ensures "-" + ("-" + escape + rest) == HYPHEN + (escape + rest)
  {
  }

  lemma WordAfterHyphen(s: string)
    requires Clashes(s) && !Special(s[0])
    ensures AfterHyphen(s) != [] && AfterHyphen(s)[0] != '-'
  {
    var n := if "dot" <= s then 3 else 2;
    var e := "-" + Encode(s);
    EncodeStarts(s);
    EncodeStarts(s[1..]);
    assert s[1..][1..] == s[2..];
    if n == 3 {
      assert s[0] == 'd' && s[1] == 'o' && s[2] == 't';
      EncodeStarts(s[2..]);
      assert s[2..][1..] == s[3..];
      EncodeStarts(s[3..]);
      assert e[0] == '-' && e[1] == 'd' && e[2] == 'o' && e[3] == 't' && e[4] == '-';
      assert DOT <= e;
    } else {
      assert s[0] == 'a' && s[1] == 't';
      EncodeStarts(s[2..]);
      assert e[0] == '-' && e[1] == 'a' && e[2] == 't' && e[3] == '-';
      assert AT <= e;
    }
  }

  function Hyphens(j: nat): (s: string)
    ensures |s| == j && forall i :: 0 <= i < j ==> s[i] == '-'
  {
    seq(j, i => '-')
  }

  /** Escaping and decoding never puts hyphens before a text. */
  lemma {:induction false} NoHyphensAdded(s: string, j: nat)
    requires j > 0
    ensures Recoded(s) != Hyphens(j) + s
    decreases |s|, 0
  {
    if s == [] {
      assert Recoded(s) == [];
    } else if s[0] != '-' {
      RecodedPlain(s);
      assert (Hyphens(j) + s)[0] == '-';
    } else {
      var k := UnitLength(s);
      RecodedUnit(s);
      if k <= 2 {
        NoHyphensAddedAfterHyphen(s[k..], j + 1);
        MoreHyphens(s, j, k, AfterHyphen(s[k..]));
      } else {
        assert Recoded(s)[1] == s[1] && (Hyphens(j) + s)[1] == '-';
      }
    }
  }

  lemma MoreHyphens(s: string, j: nat, k: nat, after: string)
    requires 1 <= k <= 2 && k <= |s| && forall i :: 0 <= i < k ==> s[i] == '-'
    requires after != Hyphens(j + 1) + s[k..]
    ensures s[..k - 1] + after != Hyphens(j) + s
  {
    var more := Hyphens(j) + s;
    assert more[k - 1..] == Hyphens(j + 1) + s[k..];
    assert (s[..k - 1] + after)[k - 1..] == after;
  }

  lemma {:induction false} NoHyphensAddedAfterHyphen(s: string, j: nat)
    requires j > 1
    ensures AfterHyphen(s) != Hyphens(j) + s
    decreases |s|, 1
  {
    var more := Hyphens(j) + s;
    assert more[0] == '-' && more[1] == '-';
    if !Clashes(s) {
      NoClash(s);
      NoHyphensAdded(s, j - 1);
      assert more[1..] == Hyphens(j - 1) + s;
      assert AfterHyphen(s)[1..] == Recoded(s);
    } else {
      ClashAfterHyphen(s);
      if s[0] == '-' && UnitLength(s) <= 2 {
        var k := UnitLength(s);
        NoHyphensAdded(s[k..], j);
        assert more[k..] == Hyphens(j) + s[k..];
        assert AfterHyphen(s)[k..] == Recoded(s[k..]);
      }
    }
  }

  /** After a hyphen a text is given back exactly if it does not clash and would be given back by
      itself. */
  lemma AfterHyphenExact(s: string)
    ensures AfterHyphen(s) == "-" + s <==> !Clashes(s) && Recoded(s) == s
  {
    if !Clashes(s) {
      NoClash(s);
      assert ("-" + s)[1..] == s && ("-" + Recoded(s))[1..] == Recoded(s);
    } else {
      ClashAfterHyphen(s);
      var same := "-" + s;
      assert same[0] == '-' && same[1] == s[0];
      if s[0] == '-' && UnitLength(s) <= 2 {
        var k := UnitLength(s);
        NoHyphensAdded(s[k..], 1);
        assert same[k..] == Hyphens(1) + s[k..];
        assert AfterHyphen(s)[k..] == Recoded(s[k..]);
      }
    }
  }

  /** Decoding restores an encoded text exactly when no unit that ends with a hyphen is followed by
      clashing text. */
  lemma {:induction false} RecodedExact(s: string)
    ensures Recoded(s) == s <==> Escapable(s)
    decreases |s|
  {
    hide AfterHyphen, Recoded, Clashes;
    if s == [] {
      RecodedEmpty();
    } else if s[0] != '-' {
      RecodedPlain(s);
      RecodedExact(s[1..]);
      SameAfter(s, 1, [s[0]], Recoded(s[1..]));
    } else {
      var k := UnitLength(s);
      RecodedUnit(s);
      RecodedExact(s[k..]);
      AfterHyphenExact(s[k..]);
      assert s[k - 1..] == "-" + s[k..];
      SameAfter(s, k - 1, s[..k - 1], AfterHyphen(s[k..]));
    }
  }

  lemma SameAfter(s: string, k: nat, first: string, rest: string)
    requires k <= |s| && first == s[..k]
    ensures first + rest == s <==> rest == s[k..]
  {
    assert s == s[..k] + s[k..];
    assert (first + rest)[k..] == rest;
  }

  lemma RecodedEmpty()
    ensures Recoded("") == ""
  {
  }

  /** Encoded text holds neither dots nor at signs. */
  lemma {:induction false} EncodedIsPlain(s: string)
    ensures forall i :: 0 <= i < |Encode(s)| ==> Encode(s)[i] != '@' && Encode(s)[i] != '.'
    decreases |s|
  {
    if s == [] {
    } else if s[0] == '-' {
      var k := UnitLength(s);
      EncodedIsPlain(s[k..]);
      assert k == 2 ==> s[..k] == HYPHEN;
      assert k == 5 ==> s[..k] == DOT;
      assert k == 4 ==> s[..k] == AT;
    } else {
      EncodedIsPlain(s[1..]);
    }
  }

  /** A hyphen before a dot, an at sign or a hyphen, or before "dot" or "at" and one of these. */
  ghost predicate HyphenBeforeClash(s: string) {
    exists i :: 0 <= i < |s| && s[i] == '-' && Clashes(s[i + 1..])
  }

  /** Text without such a hyphen is escapable. */
  lemma {:induction false} NoHyphenBeforeClash(s: string)
    requires !HyphenBeforeClash(s)
    ensures Escapable(s)
    decreases |s|
  {
    if s != [] {
      var k := if s[0] == '-' then UnitLength(s) else 1;
      forall i | 0 <= i < |s[k..]| && s[k..][i] == '-'
        ensures !Clashes(s[k..][i + 1..])
      {
        assert s[k + i] == '-' && s[k + i + 1..] == s[k..][i + 1..];
      }
      NoHyphenBeforeClash(s[k..]);
      if s[0] == '-' {
        assert s[(k - 1) + 1..] == s[k..];
      }
    }
  }

  /** A text with its dots and at signs replaced. */
  ghost function Replaced(s: string): string {
    if s == [] then ""
    else (if s[0] == '.' then "-dot-" else if s[0] == '@' then "-at-" else [s[0]]) + Replaced(s[1..])
  }

  /** Of a text without hyphens just the dots and at signs are replaced. */
  lemma {:induction false} EncodedReplaces(s: string)
    requires forall i :: 0 <= i < |s| ==> s[i] != '-'
    ensures Encode(s) == Replaced(s)
  {
    if s != [] {
      EncodedReplaces(s[1..]);
    }
  }

  /** Outside that domain two texts may have the same code. */
  lemma EncodingNotInjective()
    ensures Encode("-.") == Encode("-dot-") == "--dot-"
    ensures !Escapable("-.")
  {
    assert "-."[1..] == ".";
    assert Encode(".") == DOT + Encode("");
    assert "-dot-"[5..] == "" && "-dot-"[..5] == "-dot-";
  }

  // ---------------------------------------------------------------- identifiers

  datatype ProfileId = ProfileId(providerId: string, id: string)

  datatype ParseError = EmptyProvider

  function Create(providerId: string, id: string): Result<ProfileId, ParseError> {
    if providerId == "" then Err(EmptyProvider) else Ok(ProfileId(providerId, id))
  }

  function ToString(p: ProfileId): string {
    if p.id == "" then Encode(p.providerId)
    else Encode(p.id) + "@" + Encode(p.providerId)
  }

  /** The last index of an at sign, or -1. */
  function LastAt(s: string): (i: int)
    ensures -1 <= i < |s| && (i >= 0 ==> s[i] == '@')
    ensures forall k :: i < k < |s| ==> s[k] != '@'
  {
    if s == [] then -1
    else if s[|s| - 1] == '@' then |s| - 1
    else LastAt(s[..|s| - 1])
  }

  function Parse(s: string): Result<ProfileId, ParseError> {
    var at := LastAt(s);
    if at < 0 then Create(Decode(s), "")
    else Create(Decode(s[at + 1..]), Decode(s[..at]))
  }

  /** The printed form of an identifier: the only at sign, if there is one, comes after the code of the local
      identifier and before that of the provider; without a local identifier there is none. */
  lemma PrintedShape(p: ProfileId)
    ensures var s, n := ToString(p), |Encode(p.id)|;
            if p.id == "" then s == Encode(p.providerId) && '@' !in s
            else && n < |s| && s[..n] == Encode(p.id) && s[n] == '@' && s[n + 1..] == Encode(p.providerId)
                 && '@' !in s[..n] && '@' !in s[n + 1..]
  {
    EncodedIsPlain(p.providerId);
    EncodedIsPlain(p.id);
  }

  /** Parsing the printed form restores an identifier exactly when both its parts are escapable. */
  lemma ParsePrinted(p: ProfileId)
    requires p.providerId != ""
    ensures Parse(ToString(p)) == Ok(p) <==> Escapable(p.providerId) && Escapable(p.id)
  {
    var s := ToString(p);
    EncodedIsPlain(p.providerId);
    EncodedIsPlain(p.id);
    RecodedExact(p.providerId);
    RecodedExact(p.id);
    if p.id == "" {
      assert LastAt(s) == -1;
    } else {
      var n := |Encode(p.id)|;
      assert s[n] == '@' && s[n + 1..] == Encode(p.providerId) && s[..n] == Encode(p.id);
      assert forall k :: n < k < |s| ==> s[k] == Encode(p.providerId)[k - n - 1];
      assert LastAt(s) == n;
    }
  }
}
