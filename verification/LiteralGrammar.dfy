/** What a Kotlin or Swift string literal may hold and what it stands for, as a grammar of its content: the readers of
    scripts/native-app-i18n.ts accept exactly that. */
module LiteralGrammar {
  import opened BracketGrammar
  import opened KotlinLiterals
  import opened Literals
  import opened Nesting
  import opened SwiftLiterals
  import opened Text
  import Delimiter = ClosingDelimiter

  /** One piece of a literal: a character, a backslash with the character behind it, or an interpolation. */
  datatype Piece = Char(c: char) | Escape(next: char) | Interpolation(code: Code)

  function InterpolationBrackets(surface: Surface): Brackets {
    if surface.Apple? then SWIFT_PARENS else KOTLIN_BRACES
  }

  function Opening(surface: Surface): string { if surface.Apple? then "\\(" else "${" }

  /** Interpolations are `${...}` in Kotlin, `\(...)` in Swift. */
  function Written(surface: Surface, piece: Piece): string {
    match piece
    case Char(c) => [c]
    case Escape(next) => ['\\', next]
    case Interpolation(code) =>
      var b := InterpolationBrackets(surface);
      Opening(surface) + (Source(b, code) + [b.closing])
  }

  /** What a piece adds to the value: escapes of line feed, carriage return, tab, double quote and backslash stand for
      those characters, in Kotlin one of the dollar sign too; everything else stands for itself. */
  function Meant(surface: Surface, piece: Piece): string {
    match piece
    case Escape('n') => "\n"
    case Escape('r') => "\r"
    case Escape('t') => "\t"
    case Escape('"') => "\""
    case Escape('\\') => "\\"
    case Escape('$') => if surface.Android? then "$" else "\\$"
    case _ => Written(surface, piece)
  }

  predicate Possible(surface: Surface, piece: Piece) {
    match piece
    case Char(c) => c != '"' && c != '\\'
    case Escape(next) => surface.Apple? ==> next != '('
    case Interpolation(code) => WellFormed(InterpolationBrackets(surface), code)
  }

  /** A sequence of pieces; in Kotlin a dollar sign in front of a brace would be an interpolation. */
  predicate Sound(surface: Surface, pieces: seq<Piece>) {
    pieces != [] ==>
      && Possible(surface, pieces[0])
      && (surface.Android? && pieces[0] == Char('$') && |pieces| > 1 ==> pieces[1] != Char('{'))
      && Sound(surface, pieces[1..])
  }

  function AllWritten(surface: Surface, pieces: seq<Piece>): string {
    if pieces == [] then "" else Written(surface, pieces[0]) + AllWritten(surface, pieces[1..])
  }

  function AllMeant(surface: Surface, pieces: seq<Piece>): string {
    if pieces == [] then "" else Meant(surface, pieces[0]) + AllMeant(surface, pieces[1..])
  }

  /** The pieces stand between `i` and the closing quote in front of `end`, and stand for `value`. */
  ghost predicate Stand(surface: Surface, source: string, i: nat, end: nat, value: string, pieces: seq<Piece>) {
    && i < end <= |source| && source[end - 1] == '"'
    && Sound(surface, pieces) && source[i..end - 1] == AllWritten(surface, pieces)
    && value == AllMeant(surface, pieces)
  }

  /** From offset `i` on stand pieces and the closing quote; they end at `end` and stand for `value`. */
  ghost predicate Contains(surface: Surface, source: string, i: nat, end: nat, value: string) {
    exists pieces :: Stand(surface, source, i, end, value, pieces)
  }

  /** The content readers of both surfaces. */
  function ContentOf(surface: Surface, source: string, i: nat): (r: Option<Literal>)
    requires i <= |source|
    ensures r.Some? ==> i < r.value.end <= |source|
  {
    if surface.Apple? then SwiftContent(source, i) else Content(source, i)
  }

  // ---------- reading pieces ----------

  predicate OpensInterpolation(surface: Surface, source: string, i: nat) {
    i + 2 <= |source| && source[i..i + 2] == Opening(surface)
  }

  lemma OpeningChars(surface: Surface, source: string, i: nat)
    ensures OpensInterpolation(surface, source, i) <==>
            i + 1 < |source| && source[i] == Opening(surface)[0] && source[i + 1] == Opening(surface)[1]
  {
    if i + 1 < |source| && source[i] == Opening(surface)[0] && source[i + 1] == Opening(surface)[1] {
      assert source[i..i + 2] == [source[i], source[i + 1]];
    }
  }

  lemma CharIsRead(surface: Surface, source: string, i: nat)
    requires i < |source| && source[i] != '"' && source[i] != '\\' && !OpensInterpolation(surface, source, i)
    ensures ContentOf(surface, source, i) == Before([source[i]], ContentOf(surface, source, i + 1))
  {
    OpeningChars(surface, source, i);
  }

  lemma EscapeIsRead(surface: Surface, source: string, i: nat)
    requires i < |source| && source[i] == '\\' && !OpensInterpolation(surface, source, i)
    ensures i + 1 == |source| ==> ContentOf(surface, source, i) == None
    ensures i + 1 < |source| ==>
              ContentOf(surface, source, i)
              == Before(Meant(surface, Escape(source[i + 1])), ContentOf(surface, source, i + 2))
  {
    OpeningChars(surface, source, i);
  }

  lemma KotlinInterpolationIsRead(source: string, i: nat, end: nat)
    requires OpensInterpolation(Android, source, i) && ClosedAt(KOTLIN_BRACES, source, i + 2, end)
    ensures Content(source, i) == Before(source[i..end + 1], Content(source, end + 1))
  {
    OpeningChars(Android, source, i);
    KotlinInterpolationIsGrammatical(source, i + 2, end);
    hide ClosedAt;
  }

  lemma SwiftInterpolationIsRead(source: string, i: nat, end: nat)
    requires OpensInterpolation(Apple, source, i) && ClosedAt(SWIFT_PARENS, source, i + 2, end)
    ensures SwiftContent(source, i) == Before(source[i..end + 1], SwiftContent(source, end + 1))
  {
    OpeningChars(Apple, source, i);
    SwiftInterpolationIsGrammatical(source, i + 2, end);
    hide ClosedAt;
  }

  lemma InterpolationIsRead(surface: Surface, source: string, i: nat, end: nat)
    requires OpensInterpolation(surface, source, i)
    requires ClosedAt(InterpolationBrackets(surface), source, i + 2, end)
    ensures end + 1 <= |source|
    ensures ContentOf(surface, source, i) == Before(source[i..end + 1], ContentOf(surface, source, end + 1))
  {
    hide ClosedAt, OpensInterpolation, Content, SwiftContent;
    assert end + 1 <= |source| by { ClosesInside(InterpolationBrackets(surface), source, i + 2, end); }
    match surface
    case Android => KotlinInterpolationIsRead(source, i, end);
    case Apple => SwiftInterpolationIsRead(source, i, end);
  }

  lemma ClosesInside(b: Brackets, source: string, i: nat, end: nat)
    requires ClosedAt(b, source, i, end)
    ensures i <= end < |source|
  {
  }

  /** An interpolation that is read is closed. */
  lemma InterpolationIsClosed(surface: Surface, source: string, i: nat) returns (end: nat)
    requires OpensInterpolation(surface, source, i) && ContentOf(surface, source, i).Some?
    ensures ClosedAt(InterpolationBrackets(surface), source, i + 2, end)
  {
    OpeningChars(surface, source, i);
    match surface
    case Android =>
      end := ClosingBrace(source, i + 2, OPENED).value;
      KotlinInterpolationIsGrammatical(source, i + 2, end);
    case Apple =>
      end := Delimiter.ClosingFrom(Delimiter.PARENS, source, i + 2, Delimiter.ONE_OPEN).value;
      SwiftInterpolationIsGrammatical(source, i + 2, end);
  }

  /** Pieces are read one by one. */
  lemma PieceIsRead(surface: Surface, source: string, i: nat, piece: Piece)
    requires Possible(surface, piece) && At(source, i, Written(surface, piece))
    requires surface.Android? && piece == Char('$') && i + 1 < |source| ==> source[i + 1] != '{'
    ensures i + |Written(surface, piece)| <= |source|
    ensures ContentOf(surface, source, i)
         == Before(Meant(surface, piece), ContentOf(surface, source, i + |Written(surface, piece)|))
  {
    AtFits(source, i, Written(surface, piece));
    OpeningChars(surface, source, i);
    hide ContentOf, OpensInterpolation;
    match piece
    case Char(c) =>
      assert source[i..i + 1][0] == c;
      CharIsRead(surface, source, i);
    case Escape(next) =>
      assert source[i..i + 2][0] == '\\' && source[i..i + 2][1] == next;
      EscapeIsRead(surface, source, i);
    case Interpolation(code) =>
      var end := InterpolationStands(surface, source, i, code);
      InterpolationIsRead(surface, source, i, end);
  }

  lemma InterpolationStands(surface: Surface, source: string, i: nat, code: Code) returns (end: nat)
    requires WellFormed(InterpolationBrackets(surface), code) && At(source, i, Written(surface, Interpolation(code)))
    ensures OpensInterpolation(surface, source, i) && ClosedAt(InterpolationBrackets(surface), source, i + 2, end)
    ensures end + 1 == i + |Written(surface, Interpolation(code))|
    ensures source[i..end + 1] == Written(surface, Interpolation(code))
  {
    var b := InterpolationBrackets(surface);
    var inner := Source(b, code);
    end := i + 2 + |inner|;
    assert Written(surface, Interpolation(code)) == Opening(surface) + (inner + [b.closing]);
    assert |Opening(surface)| == 2;
    hide At, Written, Opening, Source, WellFormed, InterpolationBrackets;
    BracketedAt(source, i, Opening(surface), inner, b.closing);
  }

  lemma BracketedAt(source: string, i: nat, opening: string, inner: string, closing: char)
    requires |opening| == 2 && At(source, i, opening + (inner + [closing]))
    ensures var end := i + 2 + |inner|;
            && end < |source| && source[i..end + 1] == opening + (inner + [closing])
            && source[i..i + 2] == opening && source[i + 2..end] == inner && source[end] == closing
  {
    AtConcat(source, i, opening, inner + [closing]);
    AtConcat(source, i + 2, inner, [closing]);
    assert source[i + 2 + |inner|] == source[i + 2 + |inner|..i + 3 + |inner|][0];
  }

  lemma {:induction false} PiecesAreRead(surface: Surface, source: string, i: nat, pieces: seq<Piece>)
    requires Sound(surface, pieces) && At(source, i, AllWritten(surface, pieces) + "\"")
    ensures ContentOf(surface, source, i)
         == Some(Literal(i + |AllWritten(surface, pieces)| + 1, AllMeant(surface, pieces)))
    decreases |pieces|
  {
    hide At, ContentOf, Written, Meant, Possible;
    if pieces == [] {
      assert AllWritten(surface, pieces) + "\"" == "\"";
      QuoteEnds(surface, source, i);
    } else {
      var first, rest := Written(surface, pieces[0]), AllWritten(surface, pieces[1..]) + "\"";
      assert AllWritten(surface, pieces) + "\"" == first + rest;
      AtConcat(source, i, first, rest);
      NextWritten(surface, source, i, pieces);
      PieceIsRead(surface, source, i, pieces[0]);
      PiecesAreRead(surface, source, i + |first|, pieces[1..]);
    }
  }

  lemma QuoteEnds(surface: Surface, source: string, i: nat)
    requires At(source, i, "\"")
    ensures i < |source| && ContentOf(surface, source, i) == Some(Literal(i + 1, ""))
  {
    assert source[i] == source[i..i + 1][0];
  }

  /** No brace stands behind a dollar sign that is a character of its own. */
  lemma NextWritten(surface: Surface, source: string, i: nat, pieces: seq<Piece>)
    requires pieces != [] && Sound(surface, pieces)
    requires At(source, i + |Written(surface, pieces[0])|, AllWritten(surface, pieces[1..]) + "\"")
    ensures surface.Android? && pieces[0] == Char('$') && i + 1 < |source| ==> source[i + 1] != '{'
  {
    if surface.Android? && pieces[0] == Char('$') {
      var rest := AllWritten(surface, pieces[1..]) + "\"";
      assert source[i + 1] == source[i + 1..i + 1 + |rest|][0] == rest[0];
      if |pieces| > 1 {
        assert rest[0] == Written(surface, pieces[1])[0];
      }
    }
  }

  lemma NothingStands(surface: Surface, source: string, i: nat)
    requires At(source, i, "\"")
    ensures ContentOf(surface, source, i) == Some(Literal(i + 1, "")) && Stand(surface, source, i, i + 1, "", [])
  {
    QuoteEnds(surface, source, i);
    assert source[i..i] == "" && source[i] == source[i..i + 1][0];
  }

  lemma OneMoreStands(surface: Surface, source: string, i: nat, next: nat, end: nat, value: string, piece: Piece,
                      more: seq<Piece>)
    requires i < next && Stand(surface, source, next, end, value, more)
    requires Possible(surface, piece) && source[i..next] == Written(surface, piece)
    requires surface.Android? && piece == Char('$') && next < |source| ==> source[next] != '{'
    ensures Stand(surface, source, i, end, Meant(surface, piece) + value, [piece] + more)
  {
    hide Possible, Written, Meant;
    var pieces := [piece] + more;
    assert pieces[1..] == more;
    CutOnce(source, i, next, end - 1);
    DollarIsAlone(surface, source, i, next, end, pieces);
    hide *;
    PiecesCons(surface, piece, more);
  }

  /** What the reader accepts is made of pieces. */
  lemma {:induction false} ReadIsPieces(surface: Surface, source: string, i: nat, l: Literal)
    returns (pieces: seq<Piece>)
    requires i <= |source| && ContentOf(surface, source, i) == Some(l)
    ensures Stand(surface, source, i, l.end, l.value, pieces)
    decreases |source| - i
  {
    hide ContentOf, Written, Meant, Possible, Stand, At;
    if At(source, i, "\"") {
      NothingStands(surface, source, i);
      pieces := [];
    } else {
      var piece, next := FirstPiece(surface, source, i);
      var rest := ContentOf(surface, source, next).value;
      pieces := ReadIsPieces(surface, source, next, rest);
      OneMoreStands(surface, source, i, next, rest.end, rest.value, piece, pieces);
      pieces := [piece] + pieces;
    }
  }

  lemma CutOnce(source: string, i: nat, next: nat, stop: nat)
    requires i <= next <= stop <= |source|
    ensures source[i..stop] == source[i..next] + source[next..stop]
  {
  }

  lemma PiecesCons(surface: Surface, piece: Piece, more: seq<Piece>)
    ensures AllWritten(surface, [piece] + more) == Written(surface, piece) + AllWritten(surface, more)
    ensures AllMeant(surface, [piece] + more) == Meant(surface, piece) + AllMeant(surface, more)
    ensures Sound(surface, [piece] + more) <==>
              && Possible(surface, piece) && Sound(surface, more)
              && (surface.Android? && piece == Char('$') && more != [] ==> more[0] != Char('{'))
  {
    assert ([piece] + more)[1..] == more;
  }

  /** The first piece of a literal's content. */
  lemma FirstPiece(surface: Surface, source: string, i: nat) returns (piece: Piece, next: nat)
    requires i <= |source| && !At(source, i, "\"") && ContentOf(surface, source, i).Some?
    ensures i < next <= |source| && Possible(surface, piece) && source[i..next] == Written(surface, piece)
    ensures surface.Android? && piece == Char('$') && next < |source| ==> source[next] != '{'
    ensures ContentOf(surface, source, i) == Before(Meant(surface, piece), ContentOf(surface, source, next))
  {
    NotEmpty(surface, source, i);
    hide ContentOf, OpensInterpolation, At, WellFormed, Written, Meant, Possible;
    if OpensInterpolation(surface, source, i) {
      var end := InterpolationIsClosed(surface, source, i);
      InterpolationIsRead(surface, source, i, end);
      piece := FirstInterpolation(surface, source, i, end);
      next := end + 1;
    } else {
      piece, next := FirstCharOrEscape(surface, source, i);
    }
  }

  lemma FirstCharOrEscape(surface: Surface, source: string, i: nat) returns (piece: Piece, next: nat)
    requires i < |source| && source[i] != '"' && ContentOf(surface, source, i).Some?
    requires !OpensInterpolation(surface, source, i)
    ensures i < next <= |source| && Possible(surface, piece) && source[i..next] == Written(surface, piece)
    ensures surface.Android? && piece == Char('$') && next < |source| ==> source[next] != '{'
    ensures ContentOf(surface, source, i) == Before(Meant(surface, piece), ContentOf(surface, source, next))
  {
    OpeningChars(surface, source, i);
    hide ContentOf, OpensInterpolation;
    if source[i] == '\\' {
      EscapeIsRead(surface, source, i);
      piece, next := Escape(source[i + 1]), i + 2;
      assert source[i..i + 2] == [source[i], source[i + 1]];
    } else {
      CharIsRead(surface, source, i);
      piece, next := Char(source[i]), i + 1;
      assert source[i..i + 1] == [source[i]];
    }
  }

  lemma NotEmpty(surface: Surface, source: string, i: nat)
    requires i <= |source| && !At(source, i, "\"") && ContentOf(surface, source, i).Some?
    ensures i < |source| && source[i] != '"'
  {
    if i < |source| {
      assert source[i..i + 1] == [source[i]];
    }
  }

  lemma FirstInterpolation(surface: Surface, source: string, i: nat, end: nat) returns (piece: Piece)
    requires OpensInterpolation(surface, source, i) && ClosedAt(InterpolationBrackets(surface), source, i + 2, end)
    ensures Possible(surface, piece) && piece.Interpolation? && i < end < |source|
    ensures source[i..end + 1] == Written(surface, piece) == Meant(surface, piece)
  {
    var b := InterpolationBrackets(surface);
    var code :| WellFormed(b, code) && source[i + 2..end] == Source(b, code);
    piece := Interpolation(code);
    hide WellFormed, Source;
    assert source[i..end + 1] == source[i..i + 2] + (source[i + 2..end] + [source[end]]);
  }

  lemma DollarIsAlone(surface: Surface, source: string, i: nat, next: nat, end: nat, pieces: seq<Piece>)
    requires i < next < end <= |source| && pieces != [] && source[next..end - 1] == AllWritten(surface, pieces[1..])
    requires surface.Android? && pieces[0] == Char('$') && next < |source| ==> source[next] != '{'
    ensures surface.Android? && pieces[0] == Char('$') && |pieces| > 1 ==> pieces[1] != Char('{')
  {
    if |pieces| > 1 && pieces[1] == Char('{') {
      assert source[next] == AllWritten(surface, pieces[1..])[0];
    }
  }

  /** The reader of either surface accepts exactly the contents made of pieces, and its value and end are theirs, for
      every text and offset. */
  lemma ContentIsGrammatical(surface: Surface, source: string, i: nat, end: nat, value: string)
    requires i <= |source|
    ensures ContentOf(surface, source, i) == Some(Literal(end, value)) <==> Contains(surface, source, i, end, value)
  {
    hide ContentOf, AllWritten, AllMeant, Sound;
    if ContentOf(surface, source, i) == Some(Literal(end, value)) {
      var pieces := ReadIsPieces(surface, source, i, Literal(end, value));
    }
    if Contains(surface, source, i, end, value) {
      var pieces :| Stand(surface, source, i, end, value, pieces);
      assert source[i..end] == source[i..end - 1] + [source[end - 1]];
      PiecesAreRead(surface, source, i, pieces);
    }
  }
}
