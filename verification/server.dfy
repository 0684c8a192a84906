/** The corner-name lookup of the simulation server (server.py): a corner
    name, in any letter case, becomes canvas coordinates `margin` pixels in
    from the named corner. */
module Server {
  const CanvasWidth := 650
  const CanvasHeight := 600
  /** The margin the server passes when the caller names no other. */
  const DefaultMargin := 20

  datatype Coords = Coords(x: int, y: int)

  /** The four corners of the canvas. */
  datatype Corner = NorthEast | NorthWest | SouthEast | SouthWest

  /** Where a corner is: north is the top edge (y = margin), east the right
      edge (x = width - margin). */
  function Position(k: Corner, margin: int): Coords
  {
    match k
    case NorthEast => Coords(CanvasWidth - margin, margin)
    case NorthWest => Coords(margin, margin)
    case SouthEast => Coords(CanvasWidth - margin, CanvasHeight - margin)
    case SouthWest => Coords(margin, CanvasHeight - margin)
  }

  /** The upper-case spellings that name a corner exactly: both compass
      orders and the top/bottom-left/right abbreviation. */
  function Aliases(k: Corner): set<string>
  {
    match k
    case NorthEast => {"NE", "EN", "TR"}
    case NorthWest => {"NW", "WN", "TL"}
    case SouthEast => {"SE", "ES", "BR"}
    case SouthWest => {"SW", "WS", "BL"}
  }

  /** `str.upper` on ASCII letters; every other character is kept. */
  function UpperChar(ch: char): char
  {
    if 'a' <= ch <= 'z' then (ch as int - 32) as char else ch
  }

  function Upper(s: string): (u: string)
    ensures |u| == |s|
    ensures forall i | 0 <= i < |s| :: u[i] == UpperChar(s[i])
  {
    if s == [] then [] else [UpperChar(s[0])] + Upper(s[1..])
  }

  /** An upper-case string has no lower-case letter, so upper-casing it again
      changes nothing. */
  lemma {:induction false} UpperIdempotent(s: string)
    ensures Upper(Upper(s)) == Upper(s)
  {
    var u := Upper(s);
    assert forall i | 0 <= i < |u| :: UpperChar(u[i]) == u[i];
  }

  /** The letter test applied to names that are not aliases: east when the
      name holds an 'E', south when it holds an 'S' or a 'B'. */
  function Fallback(c: string, margin: int): Coords
  {
    Coords(if 'E' in c then CanvasWidth - margin else margin,
           if 'S' in c || 'B' in c then CanvasHeight - margin else margin)
  }

  /** `corner_to_coords`: the letter test on the upper-cased name, overridden
      by each alias list in turn. */
  function CornerToCoords(corner: string, margin: int): (r: Coords)
    ensures r.x == margin || r.x == CanvasWidth - margin
    ensures r.y == margin || r.y == CanvasHeight - margin
    ensures forall k :: Upper(corner) in Aliases(k) ==> r == Position(k, margin)
    ensures (forall k :: Upper(corner) !in Aliases(k)) ==>
              && (r.x == if 'E' in Upper(corner) then CanvasWidth - margin else margin)
              && (r.y == if 'S' in Upper(corner) || 'B' in Upper(corner) then CanvasHeight - margin else margin)
  {
    var c := Upper(corner);
    var r0 := Fallback(c, margin);
    var r1 := if c in Aliases(NorthEast) then Position(NorthEast, margin) else r0;
    var r2 := if c in Aliases(NorthWest) then Position(NorthWest, margin) else r1;
    var r3 := if c in Aliases(SouthEast) then Position(SouthEast, margin) else r2;
    if c in Aliases(SouthWest) then Position(SouthWest, margin) else r3
  }

  /** Two names that differ only in the case of their letters. */
  predicate SameIgnoringCase(s: string, t: string)
  {
    |s| == |t| && forall i | 0 <= i < |s| :: UpperChar(s[i]) == UpperChar(t[i])
  }

  /** Matching ignores letter case: "ne", "Ne" and "NE" all land on the same point. */
  lemma CaseInsensitive(s: string, t: string, margin: int)
    requires SameIgnoringCase(s, t)
    ensures Upper(s) == Upper(t)
    ensures CornerToCoords(s, margin) == CornerToCoords(t, margin)
  {
  }

  /** Every alias is recognised whatever the case it is written in. */
  lemma LowerCaseAliases(k: Corner, s: string, margin: int)
    requires Upper(s) in Aliases(k)
    ensures CornerToCoords(s, margin) == Position(k, margin)
    ensures forall t | SameIgnoringCase(s, t) :: CornerToCoords(t, margin) == Position(k, margin)
  {
    forall t | SameIgnoringCase(s, t)
      ensures CornerToCoords(t, margin) == Position(k, margin)
    {
      CaseInsensitive(s, t, margin);
    }
  }

  /** The overrides only matter for "TR" and "BR": the letter test alone puts
      every other alias where its list does, but it reads "TR" as top-left and
      "BR" as bottom-left, since neither holds an 'E'. */
  lemma FallbackAgreesExceptTRandBR(k: Corner, c: string, margin: int)
    requires c in Aliases(k)
    ensures c != "TR" && c != "BR" ==> Fallback(c, margin) == Position(k, margin)
    ensures c == "TR" ==> Fallback(c, margin) == Position(NorthWest, margin)
    ensures c == "BR" ==> Fallback(c, margin) == Position(SouthWest, margin)
  {
  }

  /** The letter test works letter by letter, not word by word: "west" holds
      an 'E' and an 'S', so it lands on the bottom-right corner. */
  lemma WestMatchesByLetter(margin: int)
    ensures CornerToCoords("west", margin) == Position(SouthEast, margin)
  {
    assert Upper("west") == "WEST";
    assert "WEST"[1] == 'E' && "WEST"[2] == 'S';
  }

  /** "top" holds neither an 'E' nor an 'S' nor a 'B', so it lands on the
      top-left corner. */
  lemma TopMatchesByLetter(margin: int)
    ensures CornerToCoords("top", margin) == Position(NorthWest, margin)
  {
    assert Upper("top") == "TOP";
  }

  /** With the default margin of 20 the corners are (630, 20), (20, 20),
      (630, 580) and (20, 580). */
  lemma DefaultCorners()
    ensures CornerToCoords("ne", DefaultMargin) == Coords(630, 20)
    ensures CornerToCoords("NW", DefaultMargin) == Coords(20, 20)
    ensures CornerToCoords("br", DefaultMargin) == Coords(630, 580)
    ensures CornerToCoords("Sw", DefaultMargin) == Coords(20, 580)
  {
    assert Upper("ne") == "NE";
    assert Upper("br") == "BR";
    assert Upper("Sw") == "SW";
  }
}
