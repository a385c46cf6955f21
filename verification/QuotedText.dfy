/** Quoted runs, as the character scanners of several scripts see them: inside of quotes a backslash takes the next
    character along, outside it stands for itself. */
module QuotedText {

  /** A character inside of quotes, alone or behind a backslash. */
  datatype QuotedChar = Bare(c: char) | Escaped(c: char)

  function Written(x: QuotedChar): string { if x.Bare? then [x.c] else ['\\', x.c] }

  function Spelled(text: seq<QuotedChar>): string {
    if text == [] then "" else Written(text[0]) + Spelled(text[1..])
  }

  /** Nothing in the run ends it. */
  predicate StaysInside(quote: char, text: seq<QuotedChar>) {
    forall x <- text :: x.Bare? ==> x.c != quote && x.c != '\\'
  }

  /** A scan: outside of quotes, or inside, with the next character escaped or not. */
  datatype Quote = Outside | Inside(quote: char, escaped: bool)

  function NextQuote(quotes: set<char>, q: Quote, c: char): Quote {
    match q
    case Outside => if c in quotes then Inside(c, false) else Outside
    case Inside(quote, escaped) =>
      if escaped then Inside(quote, false)
      else if c == '\\' then Inside(quote, true)
      else if c == quote then Outside
      else q
  }

  lemma SpelledCons(x: QuotedChar, text: seq<QuotedChar>)
    ensures Spelled([x] + text) == Written(x) + Spelled(text)
  {
    assert ([x] + text)[1..] == text;
  }

  lemma {:induction false} SpelledSnoc(text: seq<QuotedChar>, x: QuotedChar)
    ensures Spelled(text + [x]) == Spelled(text) + Written(x)
  {
    hide Written;
    if text == [] {
      assert text + [x] == [x] + [];
      SpelledCons(x, []);
      assert Written(x) + "" == "" + Written(x);
    } else {
      assert text + [x] == [text[0]] + (text[1..] + [x]);
      SpelledCons(text[0], text[1..] + [x]);
      SpelledSnoc(text[1..], x);
      assert Written(text[0]) + (Spelled(text[1..]) + Written(x)) == Written(text[0]) + Spelled(text[1..]) + Written(x);
    }
  }
}
