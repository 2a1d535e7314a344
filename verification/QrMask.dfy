/**
 Data masking: section 7.8 of ISO/IEC 18004:2015.
 */
module QrMask {
  import opened Bits
  import opened QrGrid

  type Mask = m: int | 0 <= m < 8

  /** Whether the mask pattern inverts module (x, y). */
  predicate Inverts(mask: Mask, x: nat, y: nat) {
    match mask
    case 0 => (x + y) % 2 == 0
    case 1 => y % 2 == 0
    case 2 => x % 3 == 0
    case 3 => (x + y) % 3 == 0
    case 4 => (x / 3 + y / 2) % 2 == 0
    case 5 => x * y % 2 + x * y % 3 == 0
    case 6 => (x * y % 2 + x * y % 3) % 2 == 0
    case 7 => ((x + y) % 2 + x * y % 3) % 2 == 0
  }

  /** Whether masking flips module p: it is a codeword module on which the pattern inverts. */
  predicate Flips(mask: Mask, size: int, functionModules: set<Point>, p: Point) {
    InBounds(size, p.0, p.1) && p !in functionModules && Inverts(mask, p.0, p.1)
  }

  /** The grid with the mask applied: the flipped modules change colour. */
  ghost function Masked(dark: set<Point>, functionModules: set<Point>, mask: Mask, size: int): (m: set<Point>)
    ensures forall p :: p in m <==> (p in dark) != Flips(mask, size, functionModules, p)
  {
    var kept := set p | p in dark && !Flips(mask, size, functionModules, p);
    var added := set x, y | 0 <= x < size && 0 <= y < size && Flips(mask, size, functionModules, (x, y))
                            && (x, y) !in dark :: (x, y);
    kept + added
  }

  /** Applying the same mask twice restores the grid. */
  lemma MaskIsInvolution(dark: set<Point>, functionModules: set<Point>, mask: Mask, size: int)
    ensures Masked(Masked(dark, functionModules, mask, size), functionModules, mask, size) == dark
  {
  }

  lemma MaskLeavesFunctionModules(dark: set<Point>, functionModules: set<Point>, mask: Mask, size: int)
    ensures Masked(dark, functionModules, mask, size) * functionModules == dark * functionModules
  {
  }

  /** applyMask. */
  method ApplyMask(functionModules: array<byte>, qrcode: array<byte>, mask: Mask)
    requires functionModules != qrcode && IsGrid(functionModules[..]) && IsGrid(qrcode[..])
    requires functionModules[0] == qrcode[0]
    modifies qrcode
    ensures IsGrid(qrcode[..]) && qrcode[0] == old(qrcode[0])
    ensures Dark(qrcode[..]) == Masked(old(Dark(qrcode[..])), Dark(functionModules[..]), mask, qrcode[0])
  {
    hide Dark, BufferLen, Inverts;
    var size: int := qrcode[0];
    ghost var before, functions := Dark(qrcode[..]), Dark(functionModules[..]);
    for y := 0 to size
      invariant IsGrid(qrcode[..]) && qrcode[0] == size && functionModules[0] == size
      invariant Dark(qrcode[..]) == MaskedUpTo(before, functions, mask, size, 0, y)
    {
      for x := 0 to size
        invariant IsGrid(qrcode[..]) && qrcode[0] == size && functionModules[0] == size
        invariant Dark(qrcode[..]) == MaskedUpTo(before, functions, mask, size, x, y)
      {
        MaskedUpToStep(before, functions, mask, size, x, y);
        var isFunction := GetModule(functionModules, x, y);
        if isFunction {
          continue;
        }
        var invert := Inverts(mask, x, y);
        var val := GetModule(qrcode, x, y);
        SetModule(qrcode, x, y, val != invert);
      }
      MaskedUpToRow(before, functions, mask, size, y);
    }
    MaskedUpToAll(before, functions, mask, size);
  }

  /** The grid when the scan has reached column x of row y. */
  ghost function MaskedUpTo(dark: set<Point>, functionModules: set<Point>, mask: Mask, size: int, x: int, y: int)
    : (m: set<Point>)
    ensures forall p :: p in m <==>
              (p in dark) != (Flips(mask, size, functionModules, p) && (p.1 < y || (p.1 == y && p.0 < x)))
  {
    var all := Masked(dark, functionModules, mask, size);
    (set p | p in all && (p.1 < y || (p.1 == y && p.0 < x)))
      + (set p | p in dark && !(p.1 < y || (p.1 == y && p.0 < x)))
  }

  lemma MaskedUpToStep(dark: set<Point>, functionModules: set<Point>, mask: Mask, size: int, x: int, y: int)
    requires InBounds(size, x, y)
    ensures var m := MaskedUpTo(dark, functionModules, mask, size, x, y);
            var n := MaskedUpTo(dark, functionModules, mask, size, x + 1, y);
            && ((x, y) in m <==> (x, y) in dark)
            && n == if (x, y) in functionModules then m
                    else if ((x, y) in m) != Inverts(mask, x, y) then m + {(x, y)} else m - {(x, y)}
  {
  }

  lemma MaskedUpToRow(dark: set<Point>, functionModules: set<Point>, mask: Mask, size: int, y: int)
    ensures MaskedUpTo(dark, functionModules, mask, size, size, y) ==
              MaskedUpTo(dark, functionModules, mask, size, 0, y + 1)
  {
  }

  lemma MaskedUpToAll(dark: set<Point>, functionModules: set<Point>, mask: Mask, size: int)
    ensures MaskedUpTo(dark, functionModules, mask, size, 0, 0) == dark
    ensures MaskedUpTo(dark, functionModules, mask, size, 0, size) == Masked(dark, functionModules, mask, size)
  {
  }
}
