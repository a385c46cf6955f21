/** Cutting a text at its top-level commas, for any character scanner that knows when it is outside of everything:
    what the two splitters of the scripts have in common, and how splitting and joining undo each other. */
module TopLevelCommas {
  import opened Text

  /** A scanner: its state at the start and behind every cut, its step, and when it is at top level. */
  datatype Scanner<!S> = Scanner(initial: S, next: (S, char) -> S, quiet: S -> bool)

  /** A cut before the character `c`. */
  predicate Cuts<S>(m: Scanner<S>, st: S, c: char) { c == ',' && m.quiet(st) }

  /** More text in front of the first piece. */
  function Prefixed(head: string, pieces: seq<string>): seq<string>
    requires pieces != []
  {
    [head + pieces[0]] + pieces[1..]
  }

  lemma PrefixedTwice(a: string, b: string, pieces: seq<string>)
    requires pieces != []
    ensures Prefixed("", pieces) == pieces && Prefixed(a, Prefixed(b, pieces)) == Prefixed(a + b, pieces)
  {
    assert "" + pieces[0] == pieces[0];
    assert a + (b + pieces[0]) == a + b + pieces[0];
    assert Prefixed(b, pieces)[1..] == pieces[1..];
  }

  /** The text cut at its top-level commas, from state `st` on. */
  function Pieces<S>(m: Scanner<S>, st: S, text: string): (r: seq<string>)
    ensures |r| > 0
  {
    if text == "" then [""]
    else if Cuts(m, st, text[0]) then [""] + Pieces(m, m.initial, text[1..])
    else Prefixed([text[0]], Pieces(m, m.next(st, text[0]), text[1..]))
  }

  /** The state behind `text`; None if a top-level comma is inside. */
  function Run<S>(m: Scanner<S>, st: S, text: string): Option<S> {
    if text == "" then Some(st)
    else if Cuts(m, st, text[0]) then None
    else Run(m, m.next(st, text[0]), text[1..])
  }

  /** No top-level comma inside. */
  predicate Whole<S>(m: Scanner<S>, arg: string) { Run(m, m.initial, arg).Some? }

  /** No top-level comma inside, and everything opened is closed. */
  predicate ClosedArg<S>(m: Scanner<S>, arg: string) {
    Whole(m, arg) && m.quiet(Run(m, m.initial, arg).value)
  }

  /** Joining the pieces gives the text back, for every text. */
  lemma {:induction false} PiecesJoin<S>(m: Scanner<S>, st: S, text: string)
    ensures Join(Pieces(m, st, text), ',') == text
  {
    if text != "" {
      if Cuts(m, st, text[0]) {
        var rest := Pieces(m, m.initial, text[1..]);
        PiecesJoin(m, m.initial, text[1..]);
        assert ([""] + rest)[1..] == rest;
      } else {
        var rest := Pieces(m, m.next(st, text[0]), text[1..]);
        PiecesJoin(m, m.next(st, text[0]), text[1..]);
        assert ([[text[0]] + rest[0]] + rest[1..])[1..] == rest[1..];
      }
    }
  }

  lemma {:induction false} PiecesAfter<S>(m: Scanner<S>, st: S, arg: string, rest: string)
    requires Run(m, st, arg).Some?
    ensures Pieces(m, st, arg + rest) == Prefixed(arg, Pieces(m, Run(m, st, arg).value, rest))
  {
    var p := Pieces(m, Run(m, st, arg).value, rest);
    if arg == "" {
      assert arg + rest == rest;
      PrefixedTwice("", "", p);
    } else {
      assert (arg + rest)[1..] == arg[1..] + rest;
      PiecesAfter(m, m.next(st, arg[0]), arg[1..], rest);
      PrefixedTwice([arg[0]], arg[1..], p);
      assert [arg[0]] + arg[1..] == arg;
    }
  }

  /** A text with a top-level comma inside is cut short. */
  lemma {:induction false} PiecesCutShort<S>(m: Scanner<S>, st: S, arg: string, rest: string)
    requires Run(m, st, arg).None?
    ensures |Pieces(m, st, arg + rest)[0]| < |arg|
  {
    assert (arg + rest)[1..] == arg[1..] + rest;
    if !Cuts(m, st, arg[0]) {
      PiecesCutShort(m, m.next(st, arg[0]), arg[1..], rest);
    }
  }

  /** When a joined list splits back: no argument has a top-level comma, and all but the last are closed. */
  ghost predicate Separable<S>(m: Scanner<S>, args: seq<string>) {
    && (forall k :: 0 <= k < |args| ==> Whole(m, args[k]))
    && (forall k :: 0 <= k < |args| - 1 ==> ClosedArg(m, args[k]))
  }

  lemma SeparableCons<S>(m: Scanner<S>, args: seq<string>)
    requires |args| > 1
    ensures Separable(m, args) <==> ClosedArg(m, args[0]) && Separable(m, args[1..])
  {
  }

  /** Splitting a joined list gives the list back exactly when it is separable. */
  lemma {:induction false} SplitOfJoin<S>(m: Scanner<S>, args: seq<string>)
    requires args != []
    ensures Pieces(m, m.initial, Join(args, ',')) == args <==> Separable(m, args)
  {
    var a := args[0];
    if |args| == 1 {
      assert a + "" == a;
      if Whole(m, a) {
        PiecesAfter(m, m.initial, a, "");
      } else {
        PiecesCutShort(m, m.initial, a, "");
      }
    } else {
      var tail := "," + Join(args[1..], ',');
      assert Join(args, ',') == a + tail;
      assert tail[1..] == Join(args[1..], ',');
      SeparableCons(m, args);
      SplitOfJoin(m, args[1..]);
      if Run(m, m.initial, a).None? {
        PiecesCutShort(m, m.initial, a, tail);
      } else {
        PiecesAfter(m, m.initial, a, tail);
        var st := Run(m, m.initial, a).value;
        if m.quiet(st) {
          assert Pieces(m, st, tail) == [""] + Pieces(m, m.initial, tail[1..]);
          assert a + "" == a;
          assert Pieces(m, m.initial, Join(args, ',')) == [a] + Pieces(m, m.initial, tail[1..]);
        } else {
          assert |Pieces(m, st, tail)[0]| > 0;
        }
      }
    }
  }

  /** The state before offset `k`, scanning from the start and resetting behind every cut. */
  function StateAt<S>(m: Scanner<S>, text: string, k: nat): S
    requires k <= |text|
  {
    if k == 0 then m.initial
    else
      var before := StateAt(m, text, k - 1);
      if Cuts(m, before, text[k - 1]) then m.initial else m.next(before, text[k - 1])
  }

  /** A comma outside of everything, judged by the text before it. */
  predicate TopLevelComma<S>(m: Scanner<S>, text: string, k: nat)
    requires k < |text|
  {
    Cuts(m, StateAt(m, text, k), text[k])
  }
}
