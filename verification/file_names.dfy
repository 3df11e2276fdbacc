/**
  The parts of Qt's file-system classes that the core uses, as values:
  a `QDir` is a path and whether the folder exists, a `QFileInfo` is a file
  name split at its last dot, and `QString::number` is the decimal numeral
  of a counter.
 */
module FileNames {

  /** A `QDir`: its path, and whether `QDir::exists` holds for it (`present`). */
  datatype Dir = Dir(path: string, present: bool)

  /** The index of the last `.` in `s`, or -1 when `s` holds no dot. */
  function LastDot(s: string): (i: int)
    ensures -1 <= i < |s|
    ensures i >= 0 ==> s[i] == '.'
    ensures forall j :: i < j < |s| ==> s[j] != '.'
  {
    if s == [] then -1
    else if s[|s| - 1] == '.' then |s| - 1
    else LastDot(s[..|s| - 1])
  }

  /** A `QFileInfo`, reduced to the file name the core looks at. */
  datatype FileInfo = FileInfo(name: string) {

    /** `QFileInfo::suffix`: the text after the last dot, empty without a dot. */
    function Suffix(): (r: string)
      ensures '.' !in r
      ensures '.' !in name ==> r == ""
    {
      var i := LastDot(name);
      if i < 0 then "" else name[i + 1..]
    }

    /** `QFileInfo::completeBaseName`: the text before the last dot, the whole name without one. */
    function CompleteBaseName(): (b: string)
      ensures '.' in name ==> name == b + "." + Suffix()
      ensures '.' !in name ==> b == name
    {
      var i := LastDot(name);
      if i < 0 then name else name[..i]
    }
  }

  /** A name made of a base, a dot and a dot-free extension splits back into that base and extension. */
  lemma DottedName(base: string, ext: string)
    requires '.' !in ext
    ensures FileInfo(base + "." + ext).Suffix() == ext
    ensures FileInfo(base + "." + ext).CompleteBaseName() == base
  {
    var name := base + "." + ext;
    var i := LastDot(name);
    assert name[|base|] == '.';
    assert forall j :: |base| < j < |name| ==> name[j] == ext[j - |base| - 1];
    assert name[..|base|] == base && name[|base| + 1..] == ext;
  }

  predicate IsDigit(c: char) { '0' <= c <= '9' }

  /** The digit character of `d`. */
  function Digit(d: nat): (c: char)
    requires d < 10
    ensures IsDigit(c)
  {
    (('0' as int) + d) as char
  }

  /** The value of a digit character: the inverse of `Digit`. */
  function DigitValue(c: char): (d: nat)
    requires IsDigit(c)
    ensures d < 10 && Digit(d) == c
  {
    (c as int) - ('0' as int)
  }

  /** `QString::number` on a non-negative counter: its decimal numeral, no leading zeros. */
  function NumberString(n: nat): (s: string)
    ensures |s| >= 1
    ensures forall i :: 0 <= i < |s| ==> IsDigit(s[i])
  {
    if n < 10 then [Digit(n)] else NumberString(n / 10) + [Digit(n % 10)]
  }

  /** The value of a decimal numeral. */
  function DecimalValue(s: string): nat
    requires forall i :: 0 <= i < |s| ==> IsDigit(s[i])
  {
    if s == [] then 0 else 10 * DecimalValue(s[..|s| - 1]) + DigitValue(s[|s| - 1])
  }

  /** Reading back the numeral of `n` gives `n`. */
  lemma {:induction false} DecimalRoundTrip(n: nat)
    ensures DecimalValue(NumberString(n)) == n
  {
    var s := NumberString(n);
    if n >= 10 {
      var prefix := NumberString(n / 10);
      DecimalRoundTrip(n / 10);
      assert s == prefix + [Digit(n % 10)];
      assert s[..|s| - 1] == prefix && s[|s| - 1] == Digit(n % 10);
      assert DecimalValue(s) == 10 * (n / 10) + n % 10;
    }
  }

  /** Distinct counters have distinct numerals. */
  lemma NumberStringInjective(m: nat, n: nat)
    requires m != n
    ensures NumberString(m) != NumberString(n)
  {
    DecimalRoundTrip(m);
    DecimalRoundTrip(n);
  }
}
