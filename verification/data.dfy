/** Headers and rows: the part of Weka's `Instances`/`Instance` abstraction the classifier reads. */
module Data {
  import opened Wrappers

  /** The attribute kinds the classifier accepts. */
  datatype Kind = Nominal | Numeric | Date

  /** Weka counts date attributes as numeric ones. */
  predicate IsNumeric(k: Kind) {
    k.Numeric? || k.Date?
  }

  /** A dataset header: the attribute kinds in order and the index of the class attribute
      (negative when no class attribute has been set). */
  datatype Header = Header(kinds: seq<Kind>, classIndex: int)

  /** One value per attribute, `None` when missing. Nominal values are category codes. */
  type Row = seq<Option<real>>

  predicate Fits(h: Header, row: Row) {
    |row| == |h.kinds|
  }

  predicate AllFit(h: Header, rows: seq<Row>) {
    forall i :: 0 <= i < |rows| ==> Fits(h, rows[i])
  }

  predicate HasClass(h: Header) {
    0 <= h.classIndex < |h.kinds|
  }

  /** The row's class value is present. */
  predicate ClassPresent(h: Header, row: Row)
    requires HasClass(h) && Fits(h, row)
  {
    row[h.classIndex].Some?
  }

  /** The bounds of Java's 32-bit `int`. */
  const IntMin: int := -0x8000_0000
  const IntMax: int := 0x7FFF_FFFF

  /** Java's `(int)` cast of a (non-NaN) double: truncation toward zero, clamped to the `int`
      range (section 5.1.3 of the Java Language Specification). */
  function Trunc(x: real): (r: int)
    ensures IntMin <= r <= IntMax
    ensures x >= IntMax as real ==> r == IntMax
    ensures x <= IntMin as real ==> r == IntMin
    ensures 0.0 <= x < IntMax as real ==> r as real <= x < r as real + 1.0
    ensures IntMin as real < x < 0.0 ==> r as real - 1.0 < x <= r as real
  {
    if x >= IntMax as real then IntMax
    else if x <= IntMin as real then IntMin
    else if x >= 0.0 then x.Floor
    else -((-x).Floor)
  }
}
