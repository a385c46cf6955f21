/** What the readers of string literals share: a literal's value and end, and texts standing in a source. */
module Literals {
  import opened Text

  datatype Surface = Android | Apple

  datatype Literal = Literal(end: nat, value: string)

  predicate StartsAt(source: string, i: nat, p: string) { i <= |source| && p <= source[i..] }

  /** More text in front of a literal's value. */
  function Before(text: string, rest: Option<Literal>): Option<Literal> {
    match rest case None => None case Some(l) => Some(Literal(l.end, text + l.value))
  }

  lemma BeforeTwice(a: string, b: string, rest: Option<Literal>)
    ensures Before("", rest) == rest && Before(a, Before(b, rest)) == Before(a + b, rest)
  {
    if rest.Some? {
      assert "" + rest.value.value == rest.value.value;
      assert a + (b + rest.value.value) == a + b + rest.value.value;
    }
  }

  /** `block` stands in `source` at offset `i`. */
  predicate At(source: string, i: nat, block: string) { i + |block| <= |source| && source[i..i + |block|] == block }

  lemma AtConcat(source: string, i: nat, a: string, b: string)
    ensures At(source, i, a + b) <==> At(source, i, a) && At(source, i + |a|, b)
  {
    if i + |a| + |b| <= |source| {
      var s := source[i..i + |a| + |b|];
      assert s[..|a|] == source[i..i + |a|] && s[|a|..] == source[i + |a|..i + |a| + |b|];
      assert s == s[..|a|] + s[|a|..];
    }
  }

  lemma AtFits(source: string, i: nat, block: string)
    requires At(source, i, block)
    ensures i + |block| <= |source|
  {
  }
}
