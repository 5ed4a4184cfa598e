/**
  Canvas file names: a room's canvas lives at `<image directory>/<decimal room id>.png`.
  The decimal rendering is strconv.FormatUint in base 10; ParseDecimal is its inverse
  (what strconv.ParseUint does on the digits), which makes the naming injective.
*/
module Paths {

  predicate IsDigit(c: char) { '0' <= c <= '9' }

  function DigitChar(d: nat): (c: char)
    requires d < 10
    ensures IsDigit(c) && c as int - '0' as int == d
  {
    ('0' as int + d) as char
  }

  /** Base-10 rendering of `n`, most significant digit first, no leading zeros. */
  function Decimal(n: nat): (s: string)
    ensures |s| >= 1
    ensures forall i :: 0 <= i < |s| ==> IsDigit(s[i])
    ensures s[0] == '0' ==> n == 0
    decreases n
  {
    if n < 10 then [DigitChar(n)] else Decimal(n / 10) + [DigitChar(n % 10)]
  }

  /** The value of a string of decimal digits. */
  function ParseDecimal(s: string): nat
    requires forall i :: 0 <= i < |s| ==> IsDigit(s[i])
  {
    if s == [] then 0
    else assert IsDigit(s[|s| - 1]); ParseDecimal(s[..|s| - 1]) * 10 + (s[|s| - 1] as int - '0' as int)
  }

  /** Parsing a rendered number gives the number back. */
  lemma {:induction false} ParseDecimalOfDecimal(n: nat)
    ensures ParseDecimal(Decimal(n)) == n
    decreases n
  {
    var s := Decimal(n);
    if n >= 10 {
      ParseDecimalOfDecimal(n / 10);
      assert s[..|s| - 1] == Decimal(n / 10);
    }
  }

  /** Distinct numbers render to distinct strings. */
  lemma DecimalInjective(a: nat, b: nat)
    ensures Decimal(a) == Decimal(b) <==> a == b
  {
    if Decimal(a) == Decimal(b) {
      ParseDecimalOfDecimal(a);
      ParseDecimalOfDecimal(b);
    }
  }

  /**
    Joins a directory and a file name as path.Join does for an already clean directory:
    an empty directory contributes nothing, otherwise one '/' separates the two.
  */
  function JoinPath(dir: string, name: string): (p: string)
    ensures dir == [] ==> p == name
    ensures dir != [] ==> |p| == |dir| + 1 + |name| && p[..|dir|] == dir && p[|dir|] == '/' && p[|dir| + 1..] == name
  {
    if dir == [] then name else dir + "/" + name
  }

  /** The canvas file of room `id` under image directory `dir`. */
  function CanvasPath(dir: string, id: nat): string
  {
    JoinPath(dir, Decimal(id) + ".png")
  }

  /** No two rooms share a canvas file: the path determines the room id. */
  lemma CanvasPathInjective(dir: string, a: nat, b: nat)
    ensures CanvasPath(dir, a) == CanvasPath(dir, b) <==> a == b
  {
    var na, nb := Decimal(a) + ".png", Decimal(b) + ".png";
    if CanvasPath(dir, a) == CanvasPath(dir, b) {
      assert na == nb;
      assert |Decimal(a)| == |Decimal(b)|;
      assert Decimal(a) == na[..|Decimal(a)|] == nb[..|Decimal(b)|] == Decimal(b);
      DecimalInjective(a, b);
    }
  }

  /**
    The file name part of a canvas path, parsed back, is the room id; with an empty
    directory the whole path is the file name.
  */
  lemma CanvasPathNamesRoom(dir: string, id: nat)
    ensures var p := CanvasPath(dir, id);
      var name := if dir == [] then p[..|p| - 4] else p[|dir| + 1..|p| - 4];
      (forall i :: 0 <= i < |name| ==> IsDigit(name[i])) && ParseDecimal(name) == id
  {
    var p := CanvasPath(dir, id);
    if dir == [] {
      assert p[..|p| - 4] == Decimal(id);
    } else {
      assert p[|dir| + 1..|p| - 4] == Decimal(id);
    }
    ParseDecimalOfDecimal(id);
  }
}
