/** Decimal rendering of naturals as template literals print them, joining
    words with spaces, and the inverse readings used to state what a rendered
    text means. */
module Text {
  import opened Wrappers

  predicate IsDigit(c: char) {
    '0' <= c <= '9'
  }

  predicate AllDigits(s: string) {
    forall i :: 0 <= i < |s| ==> IsDigit(s[i])
  }

  function DigitChar(d: nat): (c: char)
    requires d < 10
    ensures IsDigit(c) && c as int - '0' as int == d
  {
    ('0' as int + d) as char
  }

  /** The shortest decimal numeral of `n`. */
  function NatToString(n: nat): (s: string)
    ensures s != [] && AllDigits(s)
    ensures s[0] == '0' ==> n == 0 && s == "0"
  {
    if n < 10 then [DigitChar(n)] else NatToString(n / 10) + [DigitChar(n % 10)]
  }

  /** The value of a numeral, most significant digit first. */
  function DigitsValue(s: string): nat
    requires AllDigits(s)
  {
    if s == [] then 0 else DigitsValue(s[..|s| - 1]) * 10 + (s[|s| - 1] as int - '0' as int)
  }

  /** A numeral as `NatToString` writes it: non-empty digits, no leading zero. */
  predicate Canonical(s: string) {
    s != [] && AllDigits(s) && (s[0] == '0' ==> |s| == 1)
  }

  /** The value of a canonical numeral; None for anything else. */
  function ParseNat(s: string): (r: Option<nat>)
    ensures r.Some? <==> Canonical(s)
  {
    if Canonical(s) then Some(DigitsValue(s)) else None
  }

  /** A numeral that does not start with 0 has a positive value. */
  lemma {:induction false} LeadingDigitPositive(s: string)
    requires s != [] && AllDigits(s) && s[0] != '0'
    ensures DigitsValue(s) >= 1
  {
    if |s| > 1 {
      LeadingDigitPositive(s[..|s| - 1]);
    }
  }

  /** A numeral is read only as the rendering of its value: the reading is
      one-to-one on texts. */
  lemma {:induction false} ParseNatCanonical(s: string)
    requires ParseNat(s).Some?
    ensures s == NatToString(ParseNat(s).value)
  {
    var n := DigitsValue(s);
    if |s| > 1 {
      var init := s[..|s| - 1];
      LeadingDigitPositive(init);
      assert ParseNat(init) == Some(DigitsValue(init));
      ParseNatCanonical(init);
      assert n / 10 == DigitsValue(init) && n % 10 == s[|s| - 1] as int - '0' as int;
      assert s == init + [s[|s| - 1]];
    } else {
      assert s[..|s| - 1] == [];
      assert DigitsValue(s[..|s| - 1]) == 0;
      assert n == s[0] as int - '0' as int;
      assert DigitChar(n) == s[0];
    }
  }

  /** Reading a rendered natural gives it back. */
  lemma {:induction false} ParseNatToString(n: nat)
    ensures ParseNat(NatToString(n)) == Some(n)
  {
    if n >= 10 {
      var s := NatToString(n);
      ParseNatToString(n / 10);
      assert s[..|s| - 1] == NatToString(n / 10);
      assert s[|s| - 1] == DigitChar(n % 10);
      assert DigitsValue(s) == (n / 10) * 10 + n % 10;
    } else {
      assert NatToString(n)[..0] == [];
    }
  }

  predicate SpaceFree(w: string) {
    forall i :: 0 <= i < |w| ==> w[i] != ' '
  }

  /** Words separated by single spaces. */
  function Unwords(ws: seq<string>): string {
    if ws == [] then [] else if |ws| == 1 then ws[0] else ws[0] + " " + Unwords(ws[1..])
  }

  /** The text split at every space. */
  function Words(s: string): (ws: seq<string>)
    ensures |ws| >= 1
  {
    if s == [] then [[]]
    else
      var rest := Words(s[1..]);
      if s[0] == ' ' then [[]] + rest else [[s[0]] + rest[0]] + rest[1..]
  }

  lemma {:induction false} WordsOfWord(w: string)
    requires SpaceFree(w)
    ensures Words(w) == [w]
  {
    if w != [] {
      WordsOfWord(w[1..]);
      assert [w[0]] + w[1..] == w;
    }
  }

  lemma {:induction false} WordsCons(w: string, r: string)
    requires SpaceFree(w)
    ensures Words(w + " " + r) == [w] + Words(r)
  {
    var s := w + " " + r;
    if w == [] {
      assert s[1..] == r;
    } else {
      assert s[1..] == w[1..] + " " + r;
      WordsCons(w[1..], r);
      assert [w[0]] + w[1..] == w;
    }
  }

  /** Joining the words of a text gives the text back. */
  lemma {:induction false} UnwordsWords(s: string)
    ensures Unwords(Words(s)) == s
  {
    if s != [] {
      var rest := Words(s[1..]);
      UnwordsWords(s[1..]);
      if s[0] == ' ' {
        assert ([[]] + rest)[1..] == rest;
      } else if |rest| > 1 {
        var ws := [[s[0]] + rest[0]] + rest[1..];
        assert ws[1..] == rest[1..];
        assert Unwords(rest) == rest[0] + " " + Unwords(rest[1..]);
        assert s == [s[0]] + s[1..];
      } else {
        assert s == [s[0]] + s[1..];
      }
    }
  }

  /** Splitting joined space-free words gives the words back. */
  lemma {:induction false} WordsUnwords(ws: seq<string>)
    requires ws != []
    requires forall k :: 0 <= k < |ws| ==> SpaceFree(ws[k])
    ensures Words(Unwords(ws)) == ws
  {
    if |ws| == 1 {
      WordsOfWord(ws[0]);
    } else {
      WordsUnwords(ws[1..]);
      WordsCons(ws[0], Unwords(ws[1..]));
    }
  }
}
