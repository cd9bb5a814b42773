/**
 * The values held in one cell of a query result row, and the two Python
 * conversions the exporter applies to them: `str(val)` and `str.strip()`.
 */
module Cells {

  /** A result cell: a text value, or SQL NULL, which the rows carry as Python `None`. */
  datatype Cell = Text(s: string) | Null

  /** `str(val)`: NULL renders as "None". */
  function Str(c: Cell): string
  {
    match c
    case Text(s) => s
    case Null => "None"
  }

  /** Python truthiness of a cell: `None` and the empty string are falsy, every other text is truthy. */
  predicate Truthy(c: Cell)
  {
    c.Text? && c.s != ""
  }

  /** `str.isspace()` for one character: the characters `str.strip()` with no argument removes. */
  predicate IsSpace(ch: char)
  {
    var n := ch as int;
    (0x09 <= n <= 0x0D) || (0x1C <= n <= 0x20) || n == 0x85 || n == 0xA0 || n == 0x1680
    || (0x2000 <= n <= 0x200A) || n == 0x2028 || n == 0x2029 || n == 0x202F || n == 0x205F
    || n == 0x3000
  }

  function StripLeft(s: string): string
  {
    if |s| > 0 && IsSpace(s[0]) then StripLeft(s[1..]) else s
  }

  function StripRight(s: string): string
  {
    if |s| > 0 && IsSpace(s[|s| - 1]) then StripRight(s[..|s| - 1]) else s
  }

  /** `str.strip()`: drop leading and trailing whitespace. */
  function Strip(s: string): string
  {
    StripRight(StripLeft(s))
  }

  lemma {:induction false} StripLeftSlice(s: string) returns (i: nat)
    ensures i <= |s| && StripLeft(s) == s[i..]
    ensures forall x :: 0 <= x < i ==> IsSpace(s[x])
    ensures i < |s| ==> !IsSpace(s[i])
  {
    if |s| > 0 && IsSpace(s[0]) {
      var i' := StripLeftSlice(s[1..]);
      i := i' + 1;
      assert s[1..][i'..] == s[i..];
      forall x | 0 <= x < i ensures IsSpace(s[x]) {
        if x > 0 { assert s[x] == s[1..][x - 1]; }
      }
    } else {
      i := 0;
    }
  }

  lemma {:induction false} StripRightSlice(s: string) returns (j: nat)
    ensures j <= |s| && StripRight(s) == s[..j]
    ensures forall x :: j <= x < |s| ==> IsSpace(s[x])
    ensures 0 < j ==> !IsSpace(s[j - 1])
  {
    if |s| > 0 && IsSpace(s[|s| - 1]) {
      j := StripRightSlice(s[..|s| - 1]);
      assert s[..|s| - 1][..j] == s[..j];
      forall x | j <= x < |s| ensures IsSpace(s[x]) {
        if x < |s| - 1 { assert s[x] == s[..|s| - 1][x]; }
      }
    } else {
      j := |s|;
    }
  }

  /**
   * The stripped text is the slice s[i..j] of the input; everything outside it
   * is whitespace, its first and last characters are not, and it is empty
   * exactly when the whole input is whitespace.
   */
  lemma StripSlice(s: string) returns (i: nat, j: nat)
    ensures i <= j <= |s| && Strip(s) == s[i..j]
    ensures forall x :: 0 <= x < i ==> IsSpace(s[x])
    ensures forall x :: j <= x < |s| ==> IsSpace(s[x])
    ensures i < j ==> !IsSpace(s[i]) && !IsSpace(s[j - 1])
    ensures i == j <==> forall x :: 0 <= x < |s| ==> IsSpace(s[x])
  {
    i := StripLeftSlice(s);
    var t := s[i..];
    var j' := StripRightSlice(t);
    j := i + j';
    assert t[..j'] == s[i..j];
    forall x | j <= x < |s| ensures IsSpace(s[x]) {
      assert s[x] == t[x - i];
    }
    if i < j {
      assert s[j - 1] == t[j' - 1];
    }
  }

  /** Stripping twice is stripping once: a written cell is already in stripped form. */
  lemma StripIdempotent(s: string)
    ensures Strip(Strip(s)) == Strip(s)
  {
    var i, j := StripSlice(s);
    var r := s[i..j];
    if i < j {
      assert r[0] == s[i] && r[|r| - 1] == s[j - 1];
      assert StripLeft(r) == r;
      assert StripRight(r) == r;
    }
  }

  /**
   * A cell holding only whitespace is truthy, so it is written, and what is
   * written is the empty string rather than a blank cell.
   */
  lemma BlankTextIsWrittenEmpty(s: string)
    requires s != [] && forall x :: 0 <= x < |s| ==> IsSpace(s[x])
    ensures Truthy(Text(s)) && Strip(Str(Text(s))) == ""
  {
    var i, j := StripSlice(s);
  }
}
