/** The tile-name parser: the regular expression `Tile_r(\d+)-c(\d+)_Region(\d+)`
    searched for anywhere in a file's full path, leftmost match first, and the
    three captured digit runs turned into a tile address with `str::parse::<u32>`. */
module TileName {
  import opened Wrappers
  import opened Decimal

  /** A tile address. The record lists region first; a tile name lists row,
      column and region, in that order. */
  datatype MetaData = MetaData(region: U32, row: U32, col: U32)

  datatype Field = Region | Row | Col

  /** Why a path yields no address (each is an `unwrap` panic in the program). */
  datatype TileError =
    | NoMatch               // the pattern occurs nowhere in the path
    | OutOfRange(f: Field)  // that capture's value does not fit in a u32

  /** Where a capture group matched: the half-open range [start, end) of the path. */
  datatype Span = Span(start: nat, end: nat)

  /** The three capture groups, in the pattern's textual order. */
  datatype Captures = Captures(row: Span, col: Span, region: Span)

  /** The text a group captured (`Match::as_str`). */
  function Text(s: string, g: Span): string
    requires g.start <= g.end <= |s|
  {
    s[g.start..g.end]
  }

  /** `lit` occurs in `s` starting at position `i`. */
  predicate LiteralAt(s: string, i: nat, lit: string) {
    i + |lit| <= |s| && forall k :: 0 <= k < |lit| ==> s[i + k] == lit[k]
  }

  ghost predicate ContainsLiteral(s: string, lit: string) {
    exists k: nat :: LiteralAt(s, k, lit)
  }

  /** Every position in [lo, hi) holds an ASCII digit. */
  ghost predicate DigitsIn(s: string, lo: nat, hi: nat) {
    hi <= |s| && forall k :: lo <= k < hi ==> IsDigit(s[k])
  }

  /** The pattern matches the text from `i` to `c.region.end`, its groups
      capturing `c` (each `\d+` some non-empty run of digits, not necessarily
      the longest). */
  ghost predicate Occurrence(s: string, i: nat, c: Captures) {
    LiteralAt(s, i, "Tile_r") &&
    c.row.start == i + 6 && c.row.start < c.row.end && DigitsIn(s, c.row.start, c.row.end) &&
    LiteralAt(s, c.row.end, "-c") &&
    c.col.start == c.row.end + 2 && c.col.start < c.col.end && DigitsIn(s, c.col.start, c.col.end) &&
    LiteralAt(s, c.col.end, "_Region") &&
    c.region.start == c.col.end + 7 && c.region.start < c.region.end && DigitsIn(s, c.region.start, c.region.end)
  }

  /** The regular expression can match starting at `i`. */
  ghost predicate PatternAt(s: string, i: nat) {
    exists c :: Occurrence(s, i, c)
  }

  /** The match at `i` with greedy groups: the region run is not followed by
      another digit. (The row and column runs are followed by `-` and `_`, so
      they cannot be extended anyway.) */
  ghost predicate IsMatch(s: string, i: nat, c: Captures) {
    Occurrence(s, i, c) && (c.region.end == |s| || !IsDigit(s[c.region.end]))
  }

  /** The match the regex engine reports: the leftmost position at which the
      pattern can match at all, with greedy groups. */
  ghost predicate LeftmostMatch(s: string, i: nat, c: Captures) {
    IsMatch(s, i, c) && forall k: nat :: k < i ==> !PatternAt(s, k)
  }

  /** `\d+` applied at `i`, greedily: the end of the digit run starting there. */
  function DigitRunEnd(s: string, i: nat): (j: nat)
    requires i <= |s|
    ensures i <= j <= |s| && DigitsIn(s, i, j)
    ensures j == |s| || !IsDigit(s[j])
    decreases |s| - i
  {
    if i < |s| && IsDigit(s[i]) then DigitRunEnd(s, i + 1) else i
  }

  /** A maximal run of digits starting at `i` is the one `DigitRunEnd` finds. */
  lemma DigitRunUnique(s: string, i: nat, j: nat)
    requires i <= j && DigitsIn(s, i, j)
    requires j == |s| || !IsDigit(s[j])
    ensures DigitRunEnd(s, i) == j
  {
  }

  /** Attempts the pattern at position `i` only. */
  function MatchAt(s: string, i: nat): (r: Option<Captures>)
    requires i <= |s|
    ensures r.Some? ==> IsMatch(s, i, r.value)
  {
    if !LiteralAt(s, i, "Tile_r") then None
    else
      var rowEnd := DigitRunEnd(s, i + 6);
      if rowEnd == i + 6 || !LiteralAt(s, rowEnd, "-c") then None
      else
        var colEnd := DigitRunEnd(s, rowEnd + 2);
        if colEnd == rowEnd + 2 || !LiteralAt(s, colEnd, "_Region") then None
        else
          var regionEnd := DigitRunEnd(s, colEnd + 7);
          if regionEnd == colEnd + 7 then None
          else Some(Captures(Span(i + 6, rowEnd), Span(rowEnd + 2, colEnd), Span(colEnd + 7, regionEnd)))
  }

  /** Every greedy match at `i` is the one the attempt at `i` reports. */
  lemma MatchAtComplete(s: string, i: nat, c: Captures)
    requires IsMatch(s, i, c)
    ensures MatchAt(s, i) == Some(c)
  {
    assert s[c.row.end + 0] == "-c"[0];
    assert !IsDigit(s[c.row.end]);
    DigitRunUnique(s, c.row.start, c.row.end);
    assert s[c.col.end + 0] == "_Region"[0];
    assert !IsDigit(s[c.col.end]);
    DigitRunUnique(s, c.col.start, c.col.end);
    DigitRunUnique(s, c.region.start, c.region.end);
  }

  /** The pattern can match at `i` exactly when the greedy attempt at `i`
      succeeds: the row and column runs are forced, and the region run is
      extended to its end. */
  lemma PatternAtIffMatchAt(s: string, i: nat)
    requires i <= |s|
    ensures PatternAt(s, i) <==> MatchAt(s, i).Some?
  {
    if PatternAt(s, i) {
      var c :| Occurrence(s, i, c);
      var j := DigitRunEnd(s, c.region.start);
      assert j >= c.region.end;
      var g := Captures(c.row, c.col, Span(c.region.start, j));
      assert IsMatch(s, i, g);
      MatchAtComplete(s, i, g);
    }
  }

  /** The regex engine's scan: the first position from `i` on where the
      pattern matches, with its captures. */
  function Search(s: string, i: nat): (r: Option<(nat, Captures)>)
    requires i <= |s|
    ensures r.Some? ==> i <= r.value.0 <= |s| && MatchAt(s, r.value.0) == Some(r.value.1)
    ensures forall k: nat :: i <= k <= |s| && (r.None? || k < r.value.0) ==> MatchAt(s, k).None?
    decreases |s| - i
  {
    if MatchAt(s, i).Some? then Some((i, MatchAt(s, i).value))
    else if i == |s| then None
    else Search(s, i + 1)
  }

  lemma DigitsInText(s: string, g: Span)
    requires g.start <= g.end && DigitsIn(s, g.start, g.end)
    ensures AllDigits(Text(s, g)) && |Text(s, g)| == g.end - g.start
  {
    var t := Text(s, g);
    forall k | 0 <= k < |t| ensures IsDigit(t[k]) {
      assert t[k] == s[g.start + k];
    }
  }

  /** src/main.rs lines 53-56: find the match, then parse group 3 (region), group 1 (row)
      and group 2 (column), in that order. */
  function ParseTile(path: string): Result<MetaData, TileError> {
    match Search(path, 0)
    case None => Failure(NoMatch)
    case Some((_, c)) =>
      var region := ParseU32(Text(path, c.region));
      if region.None? then Failure(OutOfRange(Region))
      else
        var row := ParseU32(Text(path, c.row));
        if row.None? then Failure(OutOfRange(Row))
        else
          var col := ParseU32(Text(path, c.col));
          if col.None? then Failure(OutOfRange(Col))
          else Success(MetaData(region.value, row.value, col.value))
  }

  /** The scan finds exactly the leftmost match, and finds nothing only when
      the pattern can match nowhere. */
  lemma SearchIsLeftmost(s: string)
    ensures Search(s, 0).Some? ==> LeftmostMatch(s, Search(s, 0).value.0, Search(s, 0).value.1)
    ensures Search(s, 0).None? <==> forall k: nat :: !PatternAt(s, k)
  {
    var r := Search(s, 0);
    forall k: nat | k <= |s| && (r.None? || k < r.value.0) ensures !PatternAt(s, k) {
      PatternAtIffMatchAt(s, k);
    }
    if r.Some? {
      PatternAtIffMatchAt(s, r.value.0);
    }
  }

  /** There is at most one leftmost match. */
  lemma LeftmostUnique(s: string, i: nat, c: Captures, j: nat, d: Captures)
    requires LeftmostMatch(s, i, c) && LeftmostMatch(s, j, d)
    ensures i == j && c == d
  {
    assert PatternAt(s, i) && PatternAt(s, j);
    MatchAtComplete(s, i, c);
    MatchAtComplete(s, j, d);
  }

  /** A path yields `NoMatch` exactly when the pattern occurs nowhere in it;
      otherwise it has a leftmost match. */
  lemma ParseTileNoMatch(s: string)
    ensures ParseTile(s) == Failure(NoMatch) <==> forall k: nat :: !PatternAt(s, k)
    ensures ParseTile(s) != Failure(NoMatch) ==> exists i: nat, c :: LeftmostMatch(s, i, c)
  {
    SearchIsLeftmost(s);
  }

  /** Field mapping: with the leftmost match's captures `c`, the address takes
      group 1 as row, group 2 as column and group 3 as region, each the decimal
      value of its digits; the first group, in the order region, row, column,
      whose value exceeds the u32 range makes the parse fail instead. */
  lemma ParseTileOfLeftmost(s: string, i: nat, c: Captures)
    requires LeftmostMatch(s, i, c)
    ensures AllDigits(Text(s, c.row)) && AllDigits(Text(s, c.col)) && AllDigits(Text(s, c.region))
    ensures var region, row, col := DecimalValue(Text(s, c.region)), DecimalValue(Text(s, c.row)), DecimalValue(Text(s, c.col));
      && (region > U32_MAX ==> ParseTile(s) == Failure(OutOfRange(Region)))
      && (region <= U32_MAX && row > U32_MAX ==> ParseTile(s) == Failure(OutOfRange(Row)))
      && (region <= U32_MAX && row <= U32_MAX && col > U32_MAX ==> ParseTile(s) == Failure(OutOfRange(Col)))
      && (region <= U32_MAX && row <= U32_MAX && col <= U32_MAX ==>
            ParseTile(s) == Success(MetaData(region := region, row := row, col := col)))
  {
    DigitsInText(s, c.row);
    DigitsInText(s, c.col);
    DigitsInText(s, c.region);
    SearchIsLeftmost(s);
    var r := Search(s, 0);
    assert PatternAt(s, i);
    LeftmostUnique(s, i, c, r.value.0, r.value.1);
  }

  /** The text the pattern matches when its groups capture these digit runs. */
  function MatchText(row: string, col: string, region: string): string {
    "Tile_r" + row + "-c" + col + "_Region" + region
  }

  /** The spans the groups of `MatchText(row, col, region)` occupy when that
      text starts at position `i`. */
  function CapturesAt(i: nat, row: string, col: string, region: string): Captures {
    var rowEnd := i + 6 + |row|;
    var colEnd := rowEnd + 2 + |col|;
    Captures(Span(i + 6, rowEnd), Span(rowEnd + 2, colEnd), Span(colEnd + 7, colEnd + 7 + |region|))
  }

  /** `y` sits at position `|x|` of `x + y + z`. */
  lemma LiteralEmbed(x: string, t: string, z: string, j: nat, y: string)
    requires LiteralAt(t, j, y)
    ensures LiteralAt(x + t + z, |x| + j, y)
  {
    forall k | 0 <= k < |y| ensures (x + t + z)[|x| + j + k] == y[k] {
      assert (x + t + z)[|x| + j + k] == t[j + k];
    }
  }

  /** Where each piece of `MatchText(row, col, region)` sits. */
  lemma MatchTextPieces(row: string, col: string, region: string)
    ensures var t := MatchText(row, col, region);
      && |t| == 15 + |row| + |col| + |region|
      && LiteralAt(t, 0, "Tile_r")
      && LiteralAt(t, 6, row)
      && LiteralAt(t, 6 + |row|, "-c")
      && LiteralAt(t, 8 + |row|, col)
      && LiteralAt(t, 8 + |row| + |col|, "_Region")
      && LiteralAt(t, 15 + |row| + |col|, region)
  {
    var t := MatchText(row, col, region);
    assert forall k | 0 <= k < 6 :: t[k] == "Tile_r"[k];
    assert forall k | 0 <= k < |row| :: t[6 + k] == row[k];
    assert forall k | 0 <= k < 2 :: t[6 + |row| + k] == "-c"[k];
    assert forall k | 0 <= k < |col| :: t[8 + |row| + k] == col[k];
    assert forall k | 0 <= k < 7 :: t[8 + |row| + |col| + k] == "_Region"[k];
    assert forall k | 0 <= k < |region| :: t[15 + |row| + |col| + k] == region[k];
  }

  /** A run of digits placed at `i` is a digit span whose text is that run. */
  lemma DigitsAt(s: string, i: nat, y: string)
    requires LiteralAt(s, i, y) && AllDigits(y)
    ensures DigitsIn(s, i, i + |y|) && Text(s, Span(i, i + |y|)) == y
  {
    forall k | i <= k < i + |y| ensures IsDigit(s[k]) {
      assert s[i + (k - i)] == y[k - i];
    }
    assert Text(s, Span(i, i + |y|)) == y;
  }

  /** `MatchText` placed in a path is an occurrence of the pattern whose groups
      capture exactly the digit runs it was built from. */
  lemma MatchTextOccurs(prefix: string, row: string, col: string, region: string, suffix: string)
    requires row != [] && col != [] && region != []
    requires AllDigits(row) && AllDigits(col) && AllDigits(region)
    ensures var s, c := prefix + MatchText(row, col, region) + suffix, CapturesAt(|prefix|, row, col, region);
      Occurrence(s, |prefix|, c) &&
      c.region.end == |prefix| + |MatchText(row, col, region)| &&
      Text(s, c.row) == row && Text(s, c.col) == col && Text(s, c.region) == region
  {
    var t := MatchText(row, col, region);
    MatchTextPieces(row, col, region);
    LiteralEmbed(prefix, t, suffix, 0, "Tile_r");
    LiteralEmbed(prefix, t, suffix, 6, row);
    LiteralEmbed(prefix, t, suffix, 6 + |row|, "-c");
    LiteralEmbed(prefix, t, suffix, 8 + |row|, col);
    LiteralEmbed(prefix, t, suffix, 8 + |row| + |col|, "_Region");
    LiteralEmbed(prefix, t, suffix, 15 + |row| + |col|, region);
    OccurrenceOfPieces(prefix + t + suffix, |prefix|, row, col, region);
  }

  /** The six pieces of a tile name laid out from `p` form an occurrence. */
  lemma OccurrenceOfPieces(s: string, p: nat, row: string, col: string, region: string)
    requires row != [] && col != [] && region != []
    requires AllDigits(row) && AllDigits(col) && AllDigits(region)
    requires LiteralAt(s, p + 0, "Tile_r") && LiteralAt(s, p + 6, row)
    requires LiteralAt(s, p + (6 + |row|), "-c") && LiteralAt(s, p + (8 + |row|), col)
    requires LiteralAt(s, p + (8 + |row| + |col|), "_Region")
    requires LiteralAt(s, p + (15 + |row| + |col|), region)
    ensures var c := CapturesAt(p, row, col, region);
      Occurrence(s, p, c) && c.region.end == p + 15 + |row| + |col| + |region| &&
      Text(s, c.row) == row && Text(s, c.col) == col && Text(s, c.region) == region
  {
    DigitsAt(s, p + 6, row);
    DigitsAt(s, p + (8 + |row|), col);
    DigitsAt(s, p + (15 + |row| + |col|), region);
  }

  /** Unanchored search: a well-formed tile name at any position of a path is the
      match, provided `Tile_r` does not occur before it and its region digits
      end where the name ends. What comes after, including a second tile name,
      does not matter. */
  lemma TileNameInPath(prefix: string, row: string, col: string, region: string, suffix: string)
    requires row != [] && col != [] && region != []
    requires AllDigits(row) && AllDigits(col) && AllDigits(region)
    requires !ContainsLiteral(prefix, "Tile_r")
    requires suffix == [] || !IsDigit(suffix[0])
    ensures LeftmostMatch(prefix + MatchText(row, col, region) + suffix, |prefix|, CapturesAt(|prefix|, row, col, region))
  {
    var s := prefix + MatchText(row, col, region) + suffix;
    var c := CapturesAt(|prefix|, row, col, region);
    MatchTextOccurs(prefix, row, col, region, suffix);
    assert c.region.end < |s| ==> s[c.region.end] == suffix[0];
    assert IsMatch(s, |prefix|, c);
    assert s[|prefix| + 0] == 'T';
    forall k: nat | k < |prefix| ensures !PatternAt(s, k) {
      if PatternAt(s, k) {
        var d :| Occurrence(s, k, d);
        if k + 6 <= |prefix| {
          assert LiteralAt(prefix, k, "Tile_r") by {
            forall j | 0 <= j < 6 ensures prefix[k + j] == "Tile_r"[j] {
              assert s[k + j] == prefix[k + j];
            }
          }
        } else {
          MarkerDoesNotOverlap(s, k, |prefix|);
        }
      }
    }
  }

  /** `Tile_r` cannot start again inside itself. */
  lemma MarkerDoesNotOverlap(s: string, k: nat, q: nat)
    requires LiteralAt(s, k, "Tile_r") && k < q < k + 6
    ensures !LiteralAt(s, q, "Tile_r")
  {
    assert s[k + (q - k)] == "Tile_r"[q - k];
    assert forall i | 1 <= i < 6 :: "Tile_r"[i] != 'T';
    assert s[q + 0] != "Tile_r"[0];
  }

  /** The parse of a tile name placed after any prefix in which `Tile_r` does
      not occur and before any suffix that does not start with a digit: row is the value of
      the digits after `Tile_r`, column of those after `-c`, region of those
      after `_Region`, leading zeros ignored; a value above the u32 range is an
      error, never wrapped or truncated. */
  lemma ParseTileName(prefix: string, row: string, col: string, region: string, suffix: string)
    requires row != [] && col != [] && region != []
    requires AllDigits(row) && AllDigits(col) && AllDigits(region)
    requires !ContainsLiteral(prefix, "Tile_r")
    requires suffix == [] || !IsDigit(suffix[0])
    ensures var s := prefix + MatchText(row, col, region) + suffix;
      var r, w, c := DecimalValue(region), DecimalValue(row), DecimalValue(col);
      && (r > U32_MAX ==> ParseTile(s) == Failure(OutOfRange(Region)))
      && (r <= U32_MAX && w > U32_MAX ==> ParseTile(s) == Failure(OutOfRange(Row)))
      && (r <= U32_MAX && w <= U32_MAX && c > U32_MAX ==> ParseTile(s) == Failure(OutOfRange(Col)))
      && (r <= U32_MAX && w <= U32_MAX && c <= U32_MAX ==>
            ParseTile(s) == Success(MetaData(region := r, row := w, col := c)))
  {
    var s := prefix + MatchText(row, col, region) + suffix;
    TileNameInPath(prefix, row, col, region, suffix);
    MatchTextOccurs(prefix, row, col, region, suffix);
    ParseTileOfLeftmost(s, |prefix|, CapturesAt(|prefix|, row, col, region));
  }

  /** The file name the program expects for address `m`. */
  function TileFileName(m: MetaData): string {
    MatchText(Dec(m.row), Dec(m.col), Dec(m.region))
  }

  /** Round trip: any address, written as a tile name, parses back to itself
      after any prefix in which `Tile_r` does not occur and before any suffix
      that does not start with a digit. */
  lemma RoundTripInPath(prefix: string, m: MetaData, suffix: string)
    requires !ContainsLiteral(prefix, "Tile_r")
    requires suffix == [] || !IsDigit(suffix[0])
    ensures ParseTile(prefix + TileFileName(m) + suffix) == Success(m)
  {
    ParseTileName(prefix, Dec(m.row), Dec(m.col), Dec(m.region), suffix);
  }

  lemma RoundTrip(m: MetaData)
    ensures ParseTile(TileFileName(m)) == Success(m)
  {
    assert !ContainsLiteral([], "Tile_r");
    RoundTripInPath([], m, []);
    assert [] + TileFileName(m) + [] == TileFileName(m);
  }

  /** A path in which `Tile_r` never occurs has no address. */
  lemma NoMarkerNoMatch(s: string)
    requires !ContainsLiteral(s, "Tile_r")
    ensures ParseTile(s) == Failure(NoMatch)
  {
    assert forall k: nat :: !PatternAt(s, k);
    ParseTileNoMatch(s);
  }

  /** A path without a capital `T` cannot hold the marker. */
  lemma NoMarkerWithoutT(s: string)
    requires forall i | 0 <= i < |s| :: s[i] != 'T'
    ensures !ContainsLiteral(s, "Tile_r")
  {
    forall k: nat | LiteralAt(s, k, "Tile_r") ensures false {
      MarkerStartsWithT(s, k);
    }
  }

  lemma MarkerStartsWithT(s: string, k: nat)
    requires LiteralAt(s, k, "Tile_r")
    ensures k < |s| && s[k] == 'T'
  {
    assert s[k + 0] == "Tile_r"[0];
  }

  /** Case matters: a path with no capital `T` has no address. */
  lemma LowerCaseNoMatch(s: string)
    requires forall i | 0 <= i < |s| :: s[i] != 'T'
    ensures ParseTile(s) == Failure(NoMatch)
  {
    NoMarkerWithoutT(s);
    NoMarkerNoMatch(s);
  }

  /** With two tile names in one path, the first one wins. */
  lemma FirstOfTwoNames(m1: MetaData, m2: MetaData)
    ensures ParseTile(TileFileName(m1) + "/" + TileFileName(m2)) == Success(m1)
  {
    assert !ContainsLiteral([], "Tile_r");
    RoundTripInPath([], m1, "/" + TileFileName(m2));
    Regroup(TileFileName(m1), "/", TileFileName(m2));
  }

  lemma Regroup(x: string, y: string, z: string)
    ensures [] + x + (y + z) == x + y + z
  {
  }

  /** Digits right after the region run belong to the region. */
  lemma RegionRunIsGreedy(prefix: string, row: string, col: string, region: string, more: string, suffix: string)
    requires row != [] && col != [] && region != []
    requires AllDigits(row) && AllDigits(col) && AllDigits(region) && AllDigits(more)
    requires !ContainsLiteral(prefix, "Tile_r")
    requires suffix == [] || !IsDigit(suffix[0])
    requires DecimalValue(row) <= U32_MAX && DecimalValue(col) <= U32_MAX
    ensures AllDigits(region + more)
    ensures var s := prefix + MatchText(row, col, region) + (more + suffix);
      ParseTile(s) == if DecimalValue(region + more) <= U32_MAX
        then Success(MetaData(region := DecimalValue(region + more), row := DecimalValue(row), col := DecimalValue(col)))
        else Failure(OutOfRange(Region))
  {
    MatchTextRegionExtends(prefix, row, col, region, more, suffix);
    ParseTileName(prefix, row, col, region + more, suffix);
  }

  lemma MatchTextRegionExtends(prefix: string, row: string, col: string, region: string, more: string, suffix: string)
    ensures prefix + MatchText(row, col, region) + (more + suffix) == prefix + MatchText(row, col, region + more) + suffix
  {
  }

  /** A run of zeros has value zero. */
  lemma {:induction false} ZerosValue(z: string)
    requires forall k | 0 <= k < |z| :: z[k] == '0'
    ensures AllDigits(z) && DecimalValue(z) == 0
  {
    if z != [] {
      ZerosValue(z[..|z|-1]);
    }
  }

  /** Leading zeros do not change a decimal value. */
  lemma {:induction false} LeadingZerosValue(z: string, t: string)
    requires forall k | 0 <= k < |z| :: z[k] == '0'
    requires AllDigits(t)
    ensures AllDigits(z + t) && DecimalValue(z + t) == DecimalValue(t)
  {
    ZerosValue(z);
    if t == [] {
      assert z + t == z;
    } else {
      LeadingZerosValue(z, t[..|t|-1]);
      assert (z + t)[..|z + t| - 1] == z + t[..|t|-1];
    }
  }

  /** Zero-padded tile names parse to the same address as unpadded ones. */
  lemma PaddedRoundTrip(prefix: string, zr: string, zc: string, zg: string, m: MetaData, suffix: string)
    requires forall k | 0 <= k < |zr| :: zr[k] == '0'
    requires forall k | 0 <= k < |zc| :: zc[k] == '0'
    requires forall k | 0 <= k < |zg| :: zg[k] == '0'
    requires !ContainsLiteral(prefix, "Tile_r")
    requires suffix == [] || !IsDigit(suffix[0])
    ensures ParseTile(prefix + MatchText(zr + Dec(m.row), zc + Dec(m.col), zg + Dec(m.region)) + suffix) == Success(m)
  {
    LeadingZerosValue(zr, Dec(m.row));
    LeadingZerosValue(zc, Dec(m.col));
    LeadingZerosValue(zg, Dec(m.region));
    ParseTileName(prefix, zr + Dec(m.row), zc + Dec(m.col), zg + Dec(m.region), suffix);
  }
}
