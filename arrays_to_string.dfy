/**
 * `Arrays.toString(byte[])` and the `Collectors.joining()` of those
 * renderings that `MerkleTreeNode.calculateHash` digests. A byte prints
 * as its signed decimal value; elements are separated by ", " and the
 * whole is bracketed: `[]`, `[5]`, `[-128, 0, 127]`.
 */
module ArraysToString {
  import opened ByteOrder

  /** The decimal digit character for `d`. */
  function Digit(d: nat): char
    requires d < 10
  {
    ('0' as int + d) as char
  }

  /** `Integer.toString` of a non-negative value: decimal digits, no leading zeros. */
  function NatToString(n: nat): string
    decreases n
  {
    if n < 10 then [Digit(n)] else NatToString(n / 10) + [Digit(n % 10)]
  }

  /** `String.valueOf(byte)`: a minus sign for negative values, then the magnitude. */
  function ByteToString(x: SByte): string {
    if x < 0 then "-" + NatToString(-(x as int)) else NatToString(x as int)
  }

  /** The elements of an array, separated by ", ". */
  function Elements(b: Bytes): string
    decreases |b|
  {
    if |b| == 0 then ""
    else if |b| == 1 then ByteToString(b[0])
    else ByteToString(b[0]) + ", " + Elements(b[1..])
  }

  /** `Arrays.toString(b)` for a non-null array. */
  function ArrayToString(b: Bytes): string {
    "[" + Elements(b) + "]"
  }

  /** `Arrays.stream(hs).map(Arrays::toString).collect(Collectors.joining())`: the renderings, in order, with nothing between. */
  function Joined(hs: seq<Bytes>): string
    decreases |hs|
  {
    if hs == [] then "" else ArrayToString(hs[0]) + Joined(hs[1..])
  }

  /** Characters that can appear in one rendered byte. */
  predicate IsNumeral(c: char) {
    c == '-' || '0' <= c <= '9'
  }

  lemma {:induction false} NatToStringNumeral(n: nat)
    ensures |NatToString(n)| > 0
    ensures forall i :: 0 <= i < |NatToString(n)| ==> '0' <= NatToString(n)[i] <= '9'
    ensures n >= 10 ==> |NatToString(n)| >= 2
    decreases n
  {
    if n >= 10 {
      NatToStringNumeral(n / 10);
    }
  }

  /** A rendered byte is a non-empty run of sign and digit characters. */
  lemma ByteToStringNumeral(x: SByte)
    ensures |ByteToString(x)| > 0
    ensures forall i :: 0 <= i < |ByteToString(x)| ==> IsNumeral(ByteToString(x)[i])
  {
    NatToStringNumeral(if x < 0 then -(x as int) else x as int);
  }

  /** Rendered elements contain no closing bracket. */
  lemma {:induction false} ElementsNoBracket(b: Bytes)
    ensures forall i :: 0 <= i < |Elements(b)| ==> Elements(b)[i] != ']'
    decreases |b|
  {
    if |b| > 0 {
      ByteToStringNumeral(b[0]);
      if |b| > 1 {
        ElementsNoBracket(b[1..]);
      }
    }
  }

  /** If `x sep y == x' sep y'` and neither `x` nor `x'` contains `sep`, the two splits coincide. */
  lemma SplitAtFirst(x: string, y: string, x': string, y': string, sep: char)
    requires forall i :: 0 <= i < |x| ==> x[i] != sep
    requires forall i :: 0 <= i < |x'| ==> x'[i] != sep
    requires x + [sep] + y == x' + [sep] + y'
    ensures x == x' && y == y'
  {
    var s, s' := x + [sep] + y, x' + [sep] + y';
    assert s[|x|] == sep && s'[|x'|] == sep;
    assert forall i :: 0 <= i < |x| ==> s[i] == x[i];
    assert forall i :: 0 <= i < |x'| ==> s'[i] == x'[i];
    assert |x| == |x'|;
    assert x == s[..|x|] && x' == s'[..|x'|];
    assert y == s[|x| + 1..] && y' == s'[|x'| + 1..];
  }

  /** Decimal rendering of naturals is injective. */
  lemma {:induction false} NatToStringInjective(m: nat, n: nat)
    requires NatToString(m) == NatToString(n)
    ensures m == n
    decreases m
  {
    NatToStringNumeral(m);
    NatToStringNumeral(n);
    if m >= 10 && n >= 10 {
      var sm, sn := NatToString(m), NatToString(n);
      assert sm[..|sm| - 1] == NatToString(m / 10);
      assert sn[..|sn| - 1] == NatToString(n / 10);
      assert Digit(m % 10) == sm[|sm| - 1] == sn[|sn| - 1] == Digit(n % 10);
      NatToStringInjective(m / 10, n / 10);
    }
  }

  /** A rendered byte starts with a minus sign exactly when the byte is negative. */
  lemma ByteToStringSign(x: SByte)
    ensures |ByteToString(x)| > 0
    ensures ByteToString(x)[0] == '-' <==> x < 0
  {
    NatToStringNumeral(if x < 0 then -(x as int) else x as int);
  }

  /** `String.valueOf(byte)` is injective. */
  lemma ByteToStringInjective(x: SByte, y: SByte)
    requires ByteToString(x) == ByteToString(y)
    ensures x == y
  {
    var m := if x < 0 then -(x as int) else x as int;
    var n := if y < 0 then -(y as int) else y as int;
    ByteToStringSign(x);
    ByteToStringSign(y);
    if x < 0 && y < 0 {
      assert NatToString(m) == ByteToString(x)[1..];
      assert NatToString(n) == ByteToString(y)[1..];
      NatToStringInjective(m, n);
    } else if x >= 0 && y >= 0 {
      NatToStringInjective(m, n);
    }
  }

  /** A rendering of two or more elements: the first element, a comma, then the rest after a space. */
  lemma ElementsSplit(b: Bytes)
    requires |b| > 1
    ensures Elements(b) == ByteToString(b[0]) + [','] + (" " + Elements(b[1..]))
    ensures forall i :: 0 <= i < |ByteToString(b[0])| ==> ByteToString(b[0])[i] != ','
  {
    var x := ByteToString(b[0]);
    ByteToStringNumeral(b[0]);
    assert Elements(b) == x + ", " + Elements(b[1..]);
    assert x + ", " + Elements(b[1..]) == x + [','] + (" " + Elements(b[1..]));
    forall i | 0 <= i < |x| ensures x[i] != ',' {
      assert IsNumeral(x[i]);
    }
  }

  /** A single rendered byte never equals the rendering of two or more elements: it has no comma. */
  lemma SingleIsNotMany(x: SByte, b: Bytes)
    requires |b| > 1
    ensures ByteToString(x) != Elements(b)
  {
    ByteToStringNumeral(x);
    ElementsSplit(b);
    var k := |ByteToString(b[0])|;
    assert Elements(b)[k] == ',';
    if k < |ByteToString(x)| {
      assert IsNumeral(ByteToString(x)[k]);
    }
  }

  /** The ", "-separated rendering of an array's elements determines the array. */
  lemma {:induction false} ElementsInjective(a: Bytes, b: Bytes)
    requires Elements(a) == Elements(b)
    ensures a == b
    decreases |a|
  {
    if |a| > 0 && |b| > 0 {
      if |a| == 1 && |b| == 1 {
        ByteToStringInjective(a[0], b[0]);
      } else if |a| == 1 {
        SingleIsNotMany(a[0], b);
      } else if |b| == 1 {
        SingleIsNotMany(b[0], a);
      } else {
        ElementsSplit(a);
        ElementsSplit(b);
        var ya, yb := " " + Elements(a[1..]), " " + Elements(b[1..]);
        SplitAtFirst(ByteToString(a[0]), ya, ByteToString(b[0]), yb, ',');
        ByteToStringInjective(a[0], b[0]);
        assert Elements(a[1..]) == ya[1..] && Elements(b[1..]) == yb[1..];
        ElementsInjective(a[1..], b[1..]);
        assert a == [a[0]] + a[1..] && b == [b[0]] + b[1..];
      }
    } else if |a| > 0 {
      ByteToStringNumeral(a[0]);
    } else if |b| > 0 {
      ByteToStringNumeral(b[0]);
    }
  }

  /**
   * The joined renderings determine the list of arrays, order and all:
   * the text that is digested loses nothing, even though the arrays are
   * of arbitrary length (a raw concatenation of the bytes would not have
   * this property).
   */
  lemma {:induction false} JoinedInjective(hs: seq<Bytes>, gs: seq<Bytes>)
    requires Joined(hs) == Joined(gs)
    ensures hs == gs
    decreases |hs|
  {
    if hs != [] && gs != [] {
      var x, x' := "[" + Elements(hs[0]), "[" + Elements(gs[0]);
      ElementsNoBracket(hs[0]);
      ElementsNoBracket(gs[0]);
      assert Joined(hs) == x + [']'] + Joined(hs[1..]);
      assert Joined(gs) == x' + [']'] + Joined(gs[1..]);
      assert forall i :: 0 <= i < |x| ==> x[i] != ']' by {
        forall i | 0 <= i < |x| ensures x[i] != ']' {
          if i > 0 { assert x[i] == Elements(hs[0])[i - 1]; }
        }
      }
      assert forall i :: 0 <= i < |x'| ==> x'[i] != ']' by {
        forall i | 0 <= i < |x'| ensures x'[i] != ']' {
          if i > 0 { assert x'[i] == Elements(gs[0])[i - 1]; }
        }
      }
      SplitAtFirst(x, Joined(hs[1..]), x', Joined(gs[1..]), ']');
      assert Elements(hs[0]) == x[1..] && Elements(gs[0]) == x'[1..];
      ElementsInjective(hs[0], gs[0]);
      JoinedInjective(hs[1..], gs[1..]);
      assert hs == [hs[0]] + hs[1..] && gs == [gs[0]] + gs[1..];
    }
  }
}
