/** The bitmask printer and parser of src/util.c. A uint32_t mask is its 32 bits: the code only
    ever tests one, sets one, or compares with the lowest `len`. */
module Bitmask {
  import opened Text

  type Mask = m: seq<bool> | |m| == 32 witness seq(32, i => false)

  /** (1 << len) - 1. */
  function Lowest(len: nat): Mask {
    seq(32, i => i < len)
  }

  function NoBits(): Mask {
    seq(32, i => false)
  }

  /** No bit is set at or above len. */
  predicate Within(m: Mask, len: nat) {
    forall i :: len <= i < 32 ==> !m[i]
  }

  // ---- the text of a mask: its maximal runs of set bits, or its single bits ----

  datatype Run = Run(lo: nat, hi: nat)

  /** The runs among the lowest n bits; without `range` every bit is a run of its own. */
  function Runs(m: Mask, n: nat, range: bool): (rs: seq<Run>)
    requires n <= 32
    ensures rs != [] ==> rs[|rs| - 1].lo <= rs[|rs| - 1].hi < n
  {
    if n == 0 then []
    else
      var rs := Runs(m, n - 1, range);
      if m[n - 1] then WithBit(rs, n - 1, range) else rs
  }

  lemma {:induction false} RunsAreWithin(m: Mask, n: nat, range: bool)
    requires n <= 32
    ensures forall k :: 0 <= k < |Runs(m, n, range)| ==> Runs(m, n, range)[k].lo <= Runs(m, n, range)[k].hi < n
  {
    if n > 0 {
      RunsAreWithin(m, n - 1, range);
    }
  }

  function RunText(r: Run, base: nat): string {
    if r.lo == r.hi then Decimal(r.lo + base) else Decimal(r.lo + base) + "-" + Decimal(r.hi + base)
  }

  function RunTexts(rs: seq<Run>, base: nat): seq<string> {
    seq(|rs|, k requires 0 <= k < |rs| => RunText(rs[k], base))
  }

  /** The texts of the runs with commas between them. */
  function RunsText(rs: seq<Run>, base: nat): string
    decreases |rs|, 0
  {
    if rs == [] then "" else Lead(rs[..|rs| - 1], base) + RunText(rs[|rs| - 1], base)
  }

  /** What stands before a run that follows rs. */
  function Lead(rs: seq<Run>, base: nat): string
    decreases |rs|, 1
  {
    if rs == [] then "" else RunsText(rs, base) + ","
  }

  lemma {:induction false} RunsTextIsJoin(rs: seq<Run>, base: nat)
    ensures RunsText(rs, base) == Join(RunTexts(rs, base), ',')
  {
    if rs != [] {
      var last := |rs| - 1;
      RunsTextIsJoin(rs[..last], base);
      RunTextsSnoc(rs, base);
      JoinSnoc(RunTexts(rs[..last], base), RunText(rs[last], base), ',');
    }
  }

  lemma RunTextsSnoc(rs: seq<Run>, base: nat)
    requires rs != []
    ensures RunTexts(rs, base) == RunTexts(rs[..|rs| - 1], base) + [RunText(rs[|rs| - 1], base)]
  {
  }

  /** What bitmask_to_str_r prints when there is room. */
  function MaskText(m: Mask, len: nat, base: nat, range: bool): string
    requires len <= 32
  {
    if !range && m == Lowest(len) then "*" else RunsText(Runs(m, len, range), base)
  }

  /** What is printed while the last run may still grow: of that run, only its first bit. */
  function Shown(rs: seq<Run>, base: nat): string {
    if rs == [] then "" else Lead(rs[..|rs| - 1], base) + Decimal(rs[|rs| - 1].lo + base)
  }

  /** What is printed of a run after its first bit. */
  function Tail(r: Run, base: nat): string {
    if r.lo == r.hi then "" else "-" + Decimal(r.hi + base)
  }

  /** Ending a run of several bits prints its last one. */
  lemma RunsTextEnd(rs: seq<Run>, base: nat)
    requires rs != []
    ensures RunsText(rs, base) == Shown(rs, base) + Tail(rs[|rs| - 1], base)
  {
  }

  /** What one more set bit adds to the shown text: nothing while a run grows. */
  function Piece(rs: seq<Run>, i: nat, base: nat, range: bool): string {
    if rs == [] then Decimal(i + base)
    else
      var r := rs[|rs| - 1];
      if range && r.hi == i - 1 then ""
      else Tail(r, base) + "," + Decimal(i + base)
  }

  /** What one more set bit does to the shown text. */
  lemma ShownWithBit(rs: seq<Run>, i: nat, base: nat, range: bool)
    ensures Shown(WithBit(rs, i, range), base) == Shown(rs, base) + Piece(rs, i, base, range)
  {
    if rs == [] {
      assert WithBit(rs, i, range) == [Run(i, i)];
    } else if range && rs[|rs| - 1].hi == i - 1 {
      ShownSame(rs, i, base);
    } else {
      ShownNew(rs, i, base);
    }
  }

  lemma RunsNext(m: Mask, i: nat, range: bool)
    requires i < 32
    ensures Runs(m, i + 1, range) == if m[i] then WithBit(Runs(m, i, range), i, range) else Runs(m, i, range)
  {
  }

  lemma ShownSame(rs: seq<Run>, i: nat, base: nat)
    requires rs != []
    ensures Shown(rs[..|rs| - 1] + [Run(rs[|rs| - 1].lo, i)], base) == Shown(rs, base)
  {
    var last := |rs| - 1;
    assert (rs[..last] + [Run(rs[last].lo, i)])[..last] == rs[..last];
  }

  lemma ShownNew(rs: seq<Run>, i: nat, base: nat)
    requires rs != []
    ensures Shown(rs + [Run(i, i)], base) == Shown(rs, base) + (Tail(rs[|rs| - 1], base) + "," + Decimal(i + base))
  {
    RunsTextEnd(rs, base);
    assert (rs + [Run(i, i)])[..|rs|] == rs;
    Regroup(Shown(rs, base), Tail(rs[|rs| - 1], base), ",", Decimal(i + base));
  }

  lemma Regroup(a: string, b: string, c: string, d: string)
    ensures ((a + b) + c) + d == a + ((b + c) + d)
  {
  }

  /** Text once shown stays. */
  lemma {:induction false} ShownGrows(m: Mask, i: nat, n: nat, base: nat, range: bool)
    requires i <= n <= 32
    ensures Shown(Runs(m, i, range), base) <= Shown(Runs(m, n, range), base) <= RunsText(Runs(m, n, range), base)
    decreases n - i
  {
    if i < n {
      RunsNext(m, i, range);
      ShownWithBit(Runs(m, i, range), i, base, range);
      ShownGrows(m, i + 1, n, base, range);
    } else if Runs(m, n, range) != [] {
      RunsTextEnd(Runs(m, n, range), base);
    }
  }

  /** A buffer that is full on the way stays as it is. */
  lemma FullIsFull(m: Mask, i: nat, n: nat, base: nat, range: bool, size: nat)
    requires i <= n <= 32 && 1 <= size <= |Shown(Runs(m, i, range), base)|
    ensures Fit(Shown(Runs(m, i, range), base), size) == Fit(RunsText(Runs(m, n, range), base), size)
  {
    ShownGrows(m, i, n, base, range);
  }

  /** What bitmask_to_str_r leaves: NULL, a text, or nothing that is defined. */
  datatype Printed = NoBuffer | Printed(text: string) | Undefined

  /** (1 << len) - 1 is defined for a 32-bit int; a shift into its sign bit sets that bit. */
  predicate AllOnesDefined(len: nat) {
    len <= 30
  }

  /** bitmask_to_str_r: the text of the mask, cut to what the buffer holds. */
  method BitmaskToStr(mask: Mask, len: nat, base: nat, range: bool, bufLen: nat) returns (r: Printed)
    ensures r == if bufLen < 1 then NoBuffer
                 else if len < 1 || len > 32 || bufLen < 2 then Printed("")
                 else if !range && !AllOnesDefined(len) then Undefined
                 else Printed(Fit(MaskText(mask, len, base, range), bufLen))
  {
    if bufLen < 1 {
      return NoBuffer;
    }
    if len < 1 || len > 32 || bufLen < 2 {
      return Printed("");
    }
    if !range {
      if !AllOnesDefined(len) {
        return Undefined;
      }
      if mask == Lowest(len) {
        return Printed("*");
      }
    }
    var text, bufFree, state, prev, last, cut := PrintRuns(mask, len, base, range, bufLen);
    if !cut {
      text := PrintEnd(Runs(mask, len, range), base, range, text, bufFree, state, last);
    }
    return Printed(text);
  }

  /** The end of the last run, if it has several bits. */
  method PrintEnd(ghost rs: seq<Run>, base: nat, ghost range: bool, text0: string, bufFree: nat, state: int, last: nat) returns (text: string)
    requires text0 == Shown(rs, base) && Tracks(rs, range, state, last) && bufFree >= 1
    ensures text == Fit(RunsText(rs, base), |text0| + bufFree)
  {
    text := text0;
    ghost var tail := if rs == [] then "" else Tail(rs[|rs| - 1], base);
    assert RunsText(rs, base) == text + tail by {
      if rs != [] {
        RunsTextEnd(rs, base);
      }
    }
    FitMore(text, tail, bufFree);
    if state == 2 {
      text := text + Fit("-" + Decimal(last + base), bufFree);
    }
  }

  /** The last of the runs is one and lies below i. */
  predicate LastBelow(rs: seq<Run>, i: nat) {
    rs != [] ==> rs[|rs| - 1].lo <= rs[|rs| - 1].hi < i
  }

  /** Where the loop of bitmask_to_str_r stands before bit i, with the runs so far. */
  ghost predicate Printing(rs: seq<Run>, i: nat, base: nat, range: bool, text: string, state: int, prev: int, last: nat) {
    text == Shown(rs, base) && Tracks(rs, range, state, last) && prev == PrevOf(rs) && LastBelow(rs, i)
  }

  /** That loop; `cut` when the buffer is full before its end. */
  method PrintRuns(mask: Mask, len: nat, base: nat, range: bool, bufLen: nat)
      returns (text: string, bufFree: nat, state: int, prev: int, last: nat, cut: bool)
    requires len <= 32 && bufLen >= 1
    ensures cut ==> text == Fit(RunsText(Runs(mask, len, range), base), bufLen)
    ensures !cut ==> Printing(Runs(mask, len, range), len, base, range, text, state, prev, last)
    ensures !cut ==> |text| + bufFree == bufLen && bufFree >= 1
  {
    text, bufFree, cut := "", bufLen, false;
    state, prev, last := 0, -2, 0;
    ghost var rs := [];
    for i := 0 to len
      invariant rs == Runs(mask, i, range)
      invariant Printing(rs, i, base, range, text, state, prev, last)
      invariant |text| + bufFree == bufLen && bufFree >= 1
    {
      RunsNext(mask, i, range);
      if mask[i] {
        text, bufFree, state, last, cut := PrintBit(rs, i, base, range, text, bufFree, state, prev, last);
        rs := WithBit(rs, i, range);
        if cut {
          CutForGood(mask, i + 1, len, base, range, rs, text, bufLen);
          return;
        }
        prev := i;
      }
    }
  }

  lemma CutForGood(m: Mask, i: nat, n: nat, base: nat, range: bool, rs: seq<Run>, text: string, size: nat)
    requires i <= n <= 32 && rs == Runs(m, i, range) && CutAt(Shown(rs, base), text, size)
    ensures text == Fit(RunsText(Runs(m, n, range), base), size)
  {
    FullIsFull(m, i, n, base, range, size);
  }

  lemma LastOfWithBit(rs: seq<Run>, i: nat, range: bool)
    requires LastBelow(rs, i)
    ensures PrevOf(WithBit(rs, i, range)) == i && LastBelow(WithBit(rs, i, range), i + 1)
  {
  }

  /** The text filled its buffer of `size` bytes before its end. */
  ghost predicate CutAt(all: string, text: string, size: nat) {
    size >= 1 && |all| >= size && text == Fit(all, size)
  }

  /** The body of that loop for a set bit. */
  method PrintBit(ghost rs: seq<Run>, i: nat, base: nat, range: bool, text0: string, free0: nat, state0: int, prev: int, last0: nat)
      returns (text: string, free: nat, state: int, last: nat, cut: bool)
    requires Printing(rs, i, base, range, text0, state0, prev, last0) && free0 >= 1
    ensures cut ==> CutAt(Shown(WithBit(rs, i, range), base), text, |text0| + free0)
    ensures !cut ==> Printing(WithBit(rs, i, range), i + 1, base, range, text, state, i, last)
    ensures !cut ==> |text| + free == |text0| + free0 && free >= 1
  {
    var piece;
    piece, state, last := NextPiece(rs, i, base, range, state0, prev, last0);
    ShownWithBit(rs, i, base, range);
    LastOfWithBit(rs, i, range);
    text, free, cut := Emit(text0, piece, free0);
  }

  /** One snprintf of the printer, and whether the buffer is full after it. */
  method Emit(text0: string, piece: string, free0: nat) returns (text: string, free: nat, cut: bool)
    requires free0 >= 1
    ensures cut ==> CutAt(text0 + piece, text, |text0| + free0)
    ensures !cut ==> text == text0 + piece && |text| + free == |text0| + free0 && free >= 1
  {
    text, free, cut := text0, free0, false;
    if |piece| > 0 {
      FitMore(text, piece, free);
      text := text + Fit(piece, free);
      if |piece| >= free {
        cut := true;
      } else {
        free := free - |piece|;
      }
    }
  }

  function PrevOf(rs: seq<Run>): int {
    if rs == [] then -2 else rs[|rs| - 1].hi
  }

  /** The three states of the printer's loop stand for the last run so far. */
  ghost predicate Tracks(rs: seq<Run>, range: bool, state: int, last: nat) {
    if rs == [] then state == 0
    else
      var r := rs[|rs| - 1];
      if r.lo == r.hi then state == 1 else state == 2 && last == r.hi && range
  }

  /** The runs once bit i is set as well. */
  function WithBit(rs: seq<Run>, i: nat, range: bool): seq<Run> {
    if range && rs != [] && rs[|rs| - 1].hi == i - 1 then rs[..|rs| - 1] + [Run(rs[|rs| - 1].lo, i)]
    else rs + [Run(i, i)]
  }

  /** One set bit in that loop. */
  method NextPiece(ghost rs: seq<Run>, i: nat, base: nat, range: bool, state0: int, prev: int, last0: nat)
      returns (piece: string, state: int, last: nat)
    requires rs != [] ==> rs[|rs| - 1].lo <= rs[|rs| - 1].hi < i
    requires Tracks(rs, range, state0, last0) && prev == PrevOf(rs)
    ensures piece == Piece(rs, i, base, range)
    ensures Tracks(WithBit(rs, i, range), range, state, last)
  {
    piece, state, last := "", state0, last0;
    var consecutive := i - prev == 1;
    if state == 0 {
      piece := Decimal(i + base);
      state := 1;
    } else if state == 1 {
      if range && consecutive {
        last := i;
        state := 2;
      } else {
        piece := "," + Decimal(i + base);
      }
    } else {
      if consecutive {
        last := i;
      } else {
        piece := "-" + Decimal(last + base) + "," + Decimal(i + base);
        state := 1;
      }
    }
  }

  /** Adding a piece to a buffer, cut to what it holds. */
  lemma FitMore(text: string, piece: string, bufFree: nat)
    requires bufFree >= 1
    ensures text + Fit(piece, bufFree) == Fit(text + piece, |text| + bufFree)
  {
  }

  // ---- reading a mask ----

  /** Sets the bits after a up to b. */
  function SetAfter(m: Mask, a: int, b: int): Mask {
    seq(32, i requires 0 <= i < 32 => m[i] || a < i <= b)
  }

  function SetOne(m: Mask, a: int, len: nat): Mask
    requires len <= 32
  {
    if 0 <= a < len then m[a := true] else m
  }

  /** The number in part k of a token. */
  function Part(parts: seq<string>, k: nat): Option<int> {
    if k < |parts| then StrToInt(parts[k]) else None
  }

  function PartBits(first: Option<int>, second: Option<int>, m: Mask, len: nat, base: nat): Mask
    requires len <= 32
  {
    match (first, second)
    case (None, _) => m
    case (Some(a), None) => SetOne(m, a - base, len)
    case (Some(a), Some(b)) =>
      if a < b < len + base then SetAfter(SetOne(m, a - base, len), a - base, b - base) else SetOne(m, a - base, len)
  }

  /** What one token, "a" or "a-b", sets. */
  function TokenBits(tok: string, m: Mask, len: nat, base: nat): Mask
    requires len <= 32
  {
    PartBits(Part(Tokens(tok, '-'), 0), Part(Tokens(tok, '-'), 1), m, len, base)
  }

  function AllTokenBits(toks: seq<string>, m: Mask, len: nat, base: nat): Mask
    requires len <= 32
  {
    if toks == [] then m else AllTokenBits(toks[1..], TokenBits(toks[0], m, len, base), len, base)
  }

  /** What str_to_bitmask makes of a string. */
  function ReadMask(str: string, len: nat, base: nat): Mask
    requires len <= 32
  {
    if str == "*" then Lowest(len) else AllTokenBits(Tokens(str, ','), NoBits(), len, base)
  }

  /** A range that starts at base - 1 or later; the code shifts by a negative number for others. */
  predicate PartsDefined(first: Option<int>, second: Option<int>, len: nat, base: nat) {
    first.Some? && second.Some? && first.value < second.value < len + base ==> first.value >= base - 1
  }

  predicate TokenDefined(tok: string, len: nat, base: nat) {
    PartsDefined(Part(Tokens(tok, '-'), 0), Part(Tokens(tok, '-'), 1), len, base)
  }

  predicate AllTokensDefined(toks: seq<string>, len: nat, base: nat) {
    toks == [] || (TokenDefined(toks[0], len, base) && AllTokensDefined(toks[1..], len, base))
  }

  /** Whether str_to_bitmask does only what is defined. */
  predicate ReadDefined(str: string, len: nat, base: nat) {
    if str == "*" then AllOnesDefined(len) else AllTokensDefined(Tokens(str, ','), len, base)
  }

  /** With base 0 or 1, which is every caller's, only a star can go wrong. */
  lemma {:induction false} TokensAlwaysDefined(toks: seq<string>, len: nat, base: nat)
    requires base <= 1
    ensures AllTokensDefined(toks, len, base)
  {
    if toks != [] {
      var parts := Tokens(toks[0], '-');
      if parts != [] {
        StrToIntNotNegative(parts[0]);
      }
      TokensAlwaysDefined(toks[1..], len, base);
    }
  }

  /** One round of the loop of str_to_bitmask. */
  method ReadToken(tok: string, mask0: Mask, len: nat, base: nat) returns (mask: Mask, defined: bool)
    requires len <= 32 && Within(mask0, len)
    ensures defined == TokenDefined(tok, len, base)
    ensures defined ==> mask == TokenBits(tok, mask0, len, base) && Within(mask, len)
  {
    mask, defined := mask0, true;
    var parts := Tokens(tok, '-');
    var first := Part(parts, 0);
    if first.Some? {
      var a := first.value - base;
      if a >= 0 && a < len {
        mask := mask[a := true];
      }
      ghost var m1 := mask;
      var second := Part(parts, 1);
      if second.Some? {
        var b := second.value - base;
        if b > a && b < len {
          if a + 1 < 0 {
            return mask0, false;
          }
          var i := a + 1;
          while i <= b
            invariant a < i <= b + 1
            invariant mask == SetAfter(m1, a, i - 1)
          {
            mask := mask[i := true];
            i := i + 1;
          }
        }
      }
    }
  }

  /** str_to_bitmask; None when it does what is not defined. */
  method StrToBitmask(str: string, len: nat, base: nat) returns (res: Option<int>, mask: Mask)
    ensures res == if len < 1 || len > 32 then Some(-2) else if ReadDefined(str, len, base) then Some(0) else None
    ensures res == Some(0) ==> mask == ReadMask(str, len, base)
    ensures res != Some(0) ==> mask == NoBits()
    // a star is all bits, and else a bit is set exactly when some item of the list covers it
    ensures res == Some(0) && str == "*" ==> forall i :: 0 <= i < 32 ==> (mask[i] <==> i < len)
    ensures res == Some(0) && str != "*" ==> forall i :: 0 <= i < len ==>
              (mask[i] <==> Listed(Tokens(str, ','), i, len, base))
    // with a base of 0 or 1 only a star over the whole word is not defined
    ensures base <= 1 && res == None ==> str == "*" && len >= 31
    // whatever the string, nothing is set at or above len
    ensures Within(mask, len)
  {
    res, mask := ReadList(str, len, base);
    if res == Some(0) {
      ReadCovers(str, len, base);
    }
  }

  /** The loop of str_to_bitmask, and what comes before it. */
  method ReadList(str: string, len: nat, base: nat) returns (res: Option<int>, mask: Mask)
    ensures res == if len < 1 || len > 32 then Some(-2) else if ReadDefined(str, len, base) then Some(0) else None
    ensures res == Some(0) ==> mask == ReadMask(str, len, base)
    ensures res != Some(0) ==> mask == NoBits()
    // with a base of 0 or 1 only a star over the whole word is not defined
    ensures base <= 1 && res == None ==> str == "*" && len >= 31
    // whatever the string, nothing is set at or above len
    ensures Within(mask, len)
  {
    mask := NoBits();
    if len < 1 || len > 32 {
      return Some(-2), mask;
    }
    if str == "*" {
      return if AllOnesDefined(len) then Some(0) else None, if AllOnesDefined(len) then Lowest(len) else mask;
    }
    if base <= 1 {
      TokensAlwaysDefined(Tokens(str, ','), len, base);
    }
    var toks := Tokens(str, ',');
    assert toks[0..] == toks;
    for k := 0 to |toks|
      invariant Within(mask, len)
      invariant AllTokenBits(toks[k..], mask, len, base) == AllTokenBits(toks, NoBits(), len, base)
      invariant AllTokensDefined(toks[k..], len, base) == AllTokensDefined(toks, len, base)
    {
      assert toks[k..][1..] == toks[k + 1..];
      var defined;
      mask, defined := ReadToken(toks[k], mask, len, base);
      if !defined {
        return None, NoBits();
      }
    }
    res := Some(0);
  }

  lemma ReadCovers(str: string, len: nat, base: nat)
    requires len <= 32
    ensures str == "*" ==> forall i :: 0 <= i < 32 ==> (ReadMask(str, len, base)[i] <==> i < len)
    ensures str != "*" ==> forall i :: 0 <= i < len ==>
              (ReadMask(str, len, base)[i] <==> Listed(Tokens(str, ','), i, len, base))
  {
    forall i | 0 <= i < len && str != "*"
      ensures ReadMask(str, len, base)[i] <==> Listed(Tokens(str, ','), i, len, base)
    {
      ListCovers(Tokens(str, ','), NoBits(), len, base, i);
    }
  }

  /** An item of a list, "a" or "a-b", counts bit i in: it is number a, or lies in a range that
      ascends and ends below len. */
  ghost predicate Covers(item: string, i: int, len: nat, base: nat) {
    var parts := Tokens(item, '-');
    && |parts| > 0 && StrToInt(parts[0]).Some?
    && (i + base == StrToInt(parts[0]).value
        || (&& |parts| > 1 && StrToInt(parts[1]).Some?
            && StrToInt(parts[0]).value < i + base <= StrToInt(parts[1]).value < len + base))
  }

  ghost predicate Listed(items: seq<string>, i: int, len: nat, base: nat) {
    exists k :: 0 <= k < |items| && Covers(items[k], i, len, base)
  }

  lemma {:induction false} ListCovers(toks: seq<string>, m: Mask, len: nat, base: nat, i: nat)
    requires i < len <= 32
    ensures AllTokenBits(toks, m, len, base)[i] <==> m[i] || Listed(toks, i, len, base)
  {
    if toks != [] {
      ItemCovers(toks[0], m, len, base, i);
      ListCovers(toks[1..], TokenBits(toks[0], m, len, base), len, base, i);
      FirstOrRest(toks, len, base, i);
    }
  }

  lemma FirstOrRest(toks: seq<string>, len: nat, base: nat, i: nat)
    requires toks != []
    ensures Listed(toks, i, len, base) <==> Covers(toks[0], i, len, base) || Listed(toks[1..], i, len, base)
  {
    if k :| 0 <= k < |toks[1..]| && Covers(toks[1..][k], i, len, base) {
      assert Covers(toks[k + 1], i, len, base);
    }
    if k :| 0 < k < |toks| && Covers(toks[k], i, len, base) {
      assert Covers(toks[1..][k - 1], i, len, base);
    }
  }

  lemma ItemCovers(item: string, m: Mask, len: nat, base: nat, i: nat)
    requires i < len <= 32
    ensures TokenBits(item, m, len, base)[i] <==> m[i] || Covers(item, i, len, base)
  {
  }

  // ---- reading back what was printed ----

  predicate InRun(r: Run, i: nat) {
    r.lo <= i <= r.hi
  }

  ghost predicate InRuns(rs: seq<Run>, i: nat) {
    exists k :: 0 <= k < |rs| && InRun(rs[k], i)
  }

  /** The runs of a mask hold its set bits and no others. */
  lemma {:induction false} RunsHoldBits(m: Mask, n: nat, range: bool, i: nat)
    requires n <= 32
    ensures InRuns(Runs(m, n, range), i) <==> i < n && m[i]
  {
    if n > 0 {
      RunsHoldBits(m, n - 1, range, i);
      if m[n - 1] {
        WithBitHolds(Runs(m, n - 1, range), n - 1, range, i);
      }
    }
  }

  /** With `range` neighbouring runs never touch, so no run could be longer; without it every run is
      one bit. They ascend. */
  ghost predicate Maximal(rs: seq<Run>, range: bool) {
    forall k :: 0 <= k < |rs| ==> MaximalAt(rs, range, k)
  }

  ghost predicate MaximalAt(rs: seq<Run>, range: bool, k: nat)
    requires k < |rs|
  {
    && (if range then rs[k].lo <= rs[k].hi else rs[k].lo == rs[k].hi)
    && (k > 0 ==> if range then rs[k - 1].hi + 1 < rs[k].lo else rs[k - 1].hi < rs[k].lo)
  }

  lemma {:induction false} RunsAreMaximal(m: Mask, n: nat, range: bool)
    requires n <= 32
    ensures Maximal(Runs(m, n, range), range)
  {
    if n > 0 {
      RunsAreMaximal(m, n - 1, range);
      var rs := Runs(m, n - 1, range);
      if m[n - 1] {
        StaysMaximal(rs, n - 1, range);
        assert Runs(m, n, range) == WithBit(rs, n - 1, range);
      } else {
        assert Runs(m, n, range) == rs;
      }
    }
  }

  lemma StaysMaximal(rs: seq<Run>, b: nat, range: bool)
    requires Maximal(rs, range) && (rs != [] ==> rs[|rs| - 1].hi < b)
    ensures Maximal(WithBit(rs, b, range), range)
  {
    var after := WithBit(rs, b, range);
    forall k | 0 <= k < |after|
      ensures MaximalAt(after, range, k)
    {
      assert k < |rs| ==> MaximalAt(rs, range, k);
      assert k < |rs| ==> after[k].lo == rs[k].lo;
      assert k < |rs| - 1 ==> after[k] == rs[k];
      assert 0 < k <= |rs| - 1 ==> after[k - 1] == rs[k - 1];
    }
  }

  lemma WithBitHolds(rs: seq<Run>, b: nat, range: bool, i: nat)
    requires rs != [] ==> rs[|rs| - 1].lo <= rs[|rs| - 1].hi < b
    ensures InRuns(WithBit(rs, b, range), i) <==> InRuns(rs, i) || i == b
  {
    if range && rs != [] && rs[|rs| - 1].hi == b - 1 {
      var init, last := rs[..|rs| - 1], rs[|rs| - 1];
      InRunsLast(init, last, i);
      InRunsLast(init, Run(last.lo, b), i);
      assert rs == init + [last];
    } else {
      InRunsLast(rs, Run(b, b), i);
    }
  }

  lemma InRunsLast(rs: seq<Run>, r: Run, i: nat)
    ensures InRuns(rs + [r], i) <==> InRuns(rs, i) || InRun(r, i)
  {
    if InRun(r, i) {
      assert (rs + [r])[|rs|] == r;
    }
    if InRuns(rs, i) {
      var k :| 0 <= k < |rs| && InRun(rs[k], i);
      assert (rs + [r])[k] == rs[k];
    }
  }

  lemma NumberTokens(a: string, b: string)
    requires a != "" && AllDigits(a) && b != "" && AllDigits(b)
    ensures Tokens(a, '-') == [a] && Tokens(a + "-" + b, '-') == [a, b]
  {
    assert '-' !in a && '-' !in b;
    TokensOfJoin([a], '-');
    TokensOfJoin([a, b], '-');
    assert Join([a, b], '-') == a + "-" + b;
  }

  lemma NumberText(a: string, b: string)
    requires a != "" && AllDigits(a) && AllDigits(b)
    ensures ',' !in a && ',' !in a + "-" + b && a[0] != '*' && (a + "-" + b)[0] != '*'
  {
    assert a[0] in a;
    assert ',' !in a && ',' !in b;
  }

  predicate PlainToken(t: string) {
    t != "" && ',' !in t && t[0] != '*'
  }

  lemma RunIsPlain(r: Run, base: nat)
    ensures PlainToken(RunText(r, base))
  {
    NumberText(Decimal(r.lo + base), Decimal(r.hi + base));
  }

  function RangeText(a: nat, b: nat): string {
    Decimal(a) + "-" + Decimal(b)
  }

  lemma RangeParts(a: nat, b: nat)
    ensures Part(Tokens(RangeText(a, b), '-'), 0) == Some(Saturated(false, a))
    ensures Part(Tokens(RangeText(a, b), '-'), 1) == Some(Saturated(false, b))
  {
    StrToIntOfDecimal(a);
    StrToIntOfDecimal(b);
    NumberTokens(Decimal(a), Decimal(b));
  }

  /** A run's text is one token that reads as the run. */
  lemma RunReadBack(r: Run, m: Mask, len: nat, base: nat)
    requires r.lo <= r.hi < len <= 32 && base <= 1
    ensures TokenBits(RunText(r, base), m, len, base) == SetAfter(m, r.lo - 1, r.hi)
  {
    RunParts(r, base);
    RunPartBits(r, m, len, base);
  }

  lemma RunParts(r: Run, base: nat)
    requires r.hi + base <= LONG_MAX && r.lo <= r.hi
    ensures Part(Tokens(RunText(r, base), '-'), 0) == Some(r.lo + base)
    ensures Part(Tokens(RunText(r, base), '-'), 1) == if r.lo == r.hi then None else Some(r.hi + base)
  {
    var text := RunText(r, base);
    if r.lo == r.hi {
      assert text == Decimal(r.lo + base);
      NumberParts(r.lo + base);
    } else {
      assert text == RangeText(r.lo + base, r.hi + base);
      RangeParts(r.lo + base, r.hi + base);
    }
  }

  lemma NumberParts(a: nat)
    ensures Part(Tokens(Decimal(a), '-'), 0) == Some(Saturated(false, a)) && Part(Tokens(Decimal(a), '-'), 1) == None
  {
    StrToIntOfDecimal(a);
    NumberTokens(Decimal(a), "0");
  }

  lemma RunPartBits(r: Run, m: Mask, len: nat, base: nat)
    requires r.lo <= r.hi < len <= 32
    ensures PartBits(Some(r.lo + base), if r.lo == r.hi then None else Some(r.hi + base), m, len, base) == SetAfter(m, r.lo - 1, r.hi)
  {
  }

  lemma {:induction false} RunsReadBack(rs: seq<Run>, m: Mask, len: nat, base: nat, i: nat)
    requires len <= 32 && base <= 1 && i < 32
    requires forall k :: 0 <= k < |rs| ==> rs[k].lo <= rs[k].hi < len
    ensures AllTokenBits(RunTexts(rs, base), m, len, base)[i] <==> m[i] || InRuns(rs, i)
  {
    if rs != [] {
      FirstReadBack(rs, m, len, base);
      RunsReadBack(rs[1..], SetAfter(m, rs[0].lo - 1, rs[0].hi), len, base, i);
      InRunsFirst(rs, i);
    }
  }

  lemma FirstReadBack(rs: seq<Run>, m: Mask, len: nat, base: nat)
    requires rs != [] && rs[0].lo <= rs[0].hi < len <= 32 && base <= 1
    ensures AllTokenBits(RunTexts(rs, base), m, len, base) ==
            AllTokenBits(RunTexts(rs[1..], base), SetAfter(m, rs[0].lo - 1, rs[0].hi), len, base)
  {
    var toks := RunTexts(rs, base);
    RunReadBack(rs[0], m, len, base);
    assert toks[0] == RunText(rs[0], base);
    assert toks[1..] == RunTexts(rs[1..], base);
    OneToken(toks, m, SetAfter(m, rs[0].lo - 1, rs[0].hi), len, base);
  }

  lemma OneToken(toks: seq<string>, m: Mask, m': Mask, len: nat, base: nat)
    requires len <= 32 && toks != [] && TokenBits(toks[0], m, len, base) == m'
    ensures AllTokenBits(toks, m, len, base) == AllTokenBits(toks[1..], m', len, base)
  {
  }

  lemma InRunsFirst(rs: seq<Run>, i: nat)
    requires rs != []
    ensures InRuns(rs, i) <==> InRun(rs[0], i) || InRuns(rs[1..], i)
  {
    if InRuns(rs[1..], i) {
      var k :| 0 <= k < |rs[1..]| && InRun(rs[1..][k], i);
      assert rs[k + 1] == rs[1..][k];
    }
    if InRuns(rs, i) && !InRun(rs[0], i) {
      var k :| 0 <= k < |rs| && InRun(rs[k], i);
      assert rs[1..][k - 1] == rs[k];
    }
  }

  lemma RunsTextTokens(rs: seq<Run>, base: nat)
    ensures Tokens(RunsText(rs, base), ',') == RunTexts(rs, base) && RunsText(rs, base) != "*"
  {
    var parts := RunTexts(rs, base);
    forall k | 0 <= k < |rs|
      ensures PlainToken(parts[k])
    {
      RunIsPlain(rs[k], base);
    }
    TokensOfJoin(parts, ',');
    if rs != [] {
      NotStar(parts);
    }
    RunsTextIsJoin(rs, base);
  }

  /** Parsing the printed text of a mask gives back the mask. */
  lemma MaskReadBack(m: Mask, len: nat, base: nat, range: bool)
    requires 1 <= len <= 32 && base <= 1 && Within(m, len)
    ensures ReadMask(MaskText(m, len, base, range), len, base) == m
  {
    if range || m != Lowest(len) {
      var rs := Runs(m, len, range);
      RunsTextTokens(rs, base);
      RunsAreWithin(m, len, range);
      forall i | 0 <= i < 32
        ensures AllTokenBits(RunTexts(rs, base), NoBits(), len, base)[i] == m[i]
      {
        RunsReadBack(rs, NoBits(), len, base, i);
        RunsHoldBits(m, len, range, i);
      }
    }
  }

  // ---- reading a range that was typed ----

  /** What any range sets, in a mask of whatever was read before it. One that does not ascend,
      or that ends at or above len, is read as its first number alone. */
  lemma RangeToken(a: nat, b: nat, m: Mask, len: nat, base: nat)
    requires len <= 32 && base <= 1
    ensures TokenBits(RangeText(a, b), m, len, base) ==
            if a < b && b - base < len then SetAfter(m, a - base - 1, b - base) else SetOne(m, a - base, len)
  {
    RangeParts(a, b);
    RangeBits(a, b, m, len, base);
  }

  lemma RangeBits(a: nat, b: nat, m: Mask, len: nat, base: nat)
    requires len <= 32 && base <= 1
    ensures PartBits(Some(Saturated(false, a)), Some(Saturated(false, b)), m, len, base) ==
            if a < b && b - base < len then SetAfter(m, a - base - 1, b - base) else SetOne(m, a - base, len)
  {
  }

  /** The same for a range that is all there is to read. */
  lemma RangeRead(a: nat, b: nat, len: nat, base: nat)
    requires len <= 32 && base <= 1
    ensures ReadMask(RangeText(a, b), len, base) ==
            if a < b && b - base < len then SetAfter(NoBits(), a - base - 1, b - base) else SetOne(NoBits(), a - base, len)
  {
    var text := RangeText(a, b);
    NumberText(Decimal(a), Decimal(b));
    TokensOfJoin([text], ',');
    RangeToken(a, b, NoBits(), len, base);
    OneToken([text], NoBits(), TokenBits(text, NoBits(), len, base), len, base);
  }

  /** The bit that the number stands for is set. */
  predicate Names(m: Mask, base: nat, number: nat) {
    base <= number < base + 32 && m[number - base]
  }

  /** Both ends and all between them are named. */
  ghost predicate NamesAll(m: Mask, base: nat, a: nat, b: nat) {
    Names(m, base, a) && Names(m, base, b) && forall i :: a <= i <= b || b <= i <= a ==> Names(m, base, i)
  }

  /** A range is read whole, wherever in a list it stands, exactly when it does not descend and
      lies among the numbers of the mask. */
  lemma RangeReadWhole(a: nat, b: nat, len: nat, base: nat)
    requires len <= 32 && base <= 1
    ensures (forall m: Mask :: NamesAll(TokenBits(RangeText(a, b), m, len, base), base, a, b))
            <==> base <= a <= b && b - base < len
  {
    if base <= a <= b && b - base < len {
      forall m: Mask
        ensures NamesAll(TokenBits(RangeText(a, b), m, len, base), base, a, b)
      {
        RangeToken(a, b, m, len, base);
      }
    } else {
      RangeToken(a, b, NoBits(), len, base);
      assert !NamesAll(TokenBits(RangeText(a, b), NoBits(), len, base), base, a, b);
    }
  }

  lemma NotStar(parts: seq<string>)
    requires parts != [] && parts[0] != "" && parts[0][0] != '*'
    ensures Join(parts, ',') != "*"
  {
    assert Join(parts, ',')[0] == parts[0][0];
  }

  // ---- the text fits ----

  lemma ShortNumber(n: nat)
    requires n < 100
    ensures |Decimal(n)| <= 2
  {
  }

  /** What the end of the last run has yet to add. */
  function Pending(rs: seq<Run>): nat {
    if rs != [] && rs[|rs| - 1].lo != rs[|rs| - 1].hi then 3 else 0
  }

  lemma PieceIsShort(rs: seq<Run>, i: nat, base: nat, range: bool)
    requires i + base < 99 && (rs != [] ==> rs[|rs| - 1].lo <= rs[|rs| - 1].hi < i)
    ensures |Piece(rs, i, base, range)| + Pending(WithBit(rs, i, range)) <= Pending(rs) + 3
  {
    ShortNumber(i + base);
    if rs != [] {
      ShortNumber(rs[|rs| - 1].hi + base);
    }
  }

  ghost predicate IsShort(rs: seq<Run>, base: nat, n: nat) {
    |Shown(rs, base)| + Pending(rs) <= 3 * n
  }

  lemma OneBitIsShort(rs: seq<Run>, i: nat, base: nat, range: bool)
    requires i + base < 99 && LastBelow(rs, i) && IsShort(rs, base, i)
    ensures IsShort(WithBit(rs, i, range), base, i + 1)
  {
    ShownWithBit(rs, i, base, range);
    PieceIsShort(rs, i, base, range);
  }

  /** Every bit adds at most three characters. */
  lemma {:induction false} ShownIsShort(m: Mask, n: nat, base: nat, range: bool, rs: seq<Run>)
    requires n <= 32 && n + base <= 99 && rs == Runs(m, n, range)
    ensures IsShort(rs, base, n)
  {
    if n > 0 {
      var before := Runs(m, n - 1, range);
      ShownIsShort(m, n - 1, base, range, before);
      RunsNext(m, n - 1, range);
      if m[n - 1] {
        OneBitIsShort(before, n - 1, base, range);
      }
    }
  }

  const BITMASK_BUF_SIZE := 96

  /** The text of up to 30 bits always fits the 96 bytes of bitmask_to_str. */
  lemma MaskTextFits(m: Mask, len: nat, base: nat, range: bool)
    requires len <= 30 && base <= 1
    ensures |MaskText(m, len, base, range)| <= 3 * len + 1 < BITMASK_BUF_SIZE
    ensures Fit(MaskText(m, len, base, range), BITMASK_BUF_SIZE) == MaskText(m, len, base, range)
  {
    RunsTextIsShort(m, len, base, range);
  }

  lemma RunsTextIsShort(m: Mask, n: nat, base: nat, range: bool)
    requires n <= 32 && n + base <= 99
    ensures |RunsText(Runs(m, n, range), base)| <= 3 * n
  {
    var rs := Runs(m, n, range);
    ShownIsShort(m, n, base, range, rs);
    if rs != [] {
      RunsTextEnd(rs, base);
      ShortNumber(rs[|rs| - 1].hi + base);
    }
  }
}
