/** Bytes, fixed-width integers and the text renderings the tools build from them:
    lower-case hex pairs (Python's `bytes.hex`), upper-case `04X`/`02X` format fields, decimal
    numbers, joining on a separator and `str.split`. */
module ByteSeq {
  import opened Wrappers

  type Byte = b: int | 0 <= b < 256
  type U16 = x: int | 0 <= x < 0x1_0000
  type U32 = x: int | 0 <= x < 0x1_0000_0000

  /** Python's `sum(data)` over a byte string. */
  function Sum(s: seq<Byte>): (r: nat)
    ensures r <= 255 * |s|
  {
    if s == [] then 0 else s[0] + Sum(s[1..])
  }

  lemma {:induction false} SumConcat(a: seq<Byte>, b: seq<Byte>)
    ensures Sum(a + b) == Sum(a) + Sum(b)
  {
    if a == [] {
      assert a + b == b;
    } else {
      assert (a + b)[1..] == a[1..] + b;
      SumConcat(a[1..], b);
    }
  }

  /** `(hi << 8) | lo` for two bytes. */
  function BigEndian16(hi: Byte, lo: Byte): (r: U16)
    ensures r / 256 == hi && r % 256 == lo
  {
    hi * 256 + lo
  }

  // ---------------------------------------------------------------------------------------------
  // Hex digits

  function LowerHexDigit(d: int): char
    requires 0 <= d < 16
  {
    "0123456789abcdef"[d]
  }

  function UpperHexDigit(d: int): char
    requires 0 <= d < 16
  {
    "0123456789ABCDEF"[d]
  }

  /** The digit value of a hex character of either case, as `int(c, 16)` reads it. */
  function HexValue(c: char): Option<int>
  {
    if '0' <= c <= '9' then Some(c as int - '0' as int)
    else if 'a' <= c <= 'f' then Some(c as int - 'a' as int + 10)
    else if 'A' <= c <= 'F' then Some(c as int - 'A' as int + 10)
    else None
  }

  lemma LowerHexDigitValue(d: int)
    requires 0 <= d < 16
    ensures HexValue(LowerHexDigit(d)) == Some(d)
  {
  }

  lemma UpperHexDigitValue(d: int)
    requires 0 <= d < 16
    ensures HexValue(UpperHexDigit(d)) == Some(d)
  {
  }

  /** One byte as two lower-case hex digits, as in `bytes.hex`. */
  function HexByte(b: Byte): (r: string)
    ensures |r| == 2 && ' ' !in r
  {
    [LowerHexDigit(b / 16), LowerHexDigit(b % 16)]
  }

  /** `int(s, 16)` on a two-digit string; anything else is not a byte. */
  function ParseHexByte(s: string): Option<Byte>
  {
    if |s| != 2 then None
    else match (HexValue(s[0]), HexValue(s[1]))
      case (Some(h), Some(l)) => if 0 <= h < 16 && 0 <= l < 16 then Some(h * 16 + l) else None
      case _ => None
  }

  lemma HexByteParses(b: Byte)
    ensures ParseHexByte(HexByte(b)) == Some(b)
  {
    LowerHexDigitValue(b / 16);
    LowerHexDigitValue(b % 16);
  }

  /** Format `02X` of a byte. */
  function UpperHex2(b: Byte): (r: string)
    ensures |r| == 2
  {
    [UpperHexDigit(b / 16), UpperHexDigit(b % 16)]
  }

  /** Format `04X` of a 16-bit value: always exactly four digits. */
  function UpperHex4(x: U16): (r: string)
    ensures |r| == 4
  {
    UpperHex2(x / 256) + UpperHex2(x % 256)
  }

  /** Reads four hex digits back; the inverse of `UpperHex4`. */
  function ParseHex4(s: string): Option<U16>
  {
    if |s| != 4 then None
    else match (ParseHexByte(s[..2]), ParseHexByte(s[2..]))
      case (Some(h), Some(l)) => var v: U16 := (h as int) * 256 + (l as int); Some(v)
      case _ => None
  }

  lemma UpperHex2Parses(b: Byte)
    ensures ParseHexByte(UpperHex2(b)) == Some(b)
  {
    UpperHexDigitValue(b / 16);
    UpperHexDigitValue(b % 16);
  }

  /** Two parsed bytes read as one 16-bit value. */
  lemma ParseHex4Of(a: string, b: string, h: Byte, l: Byte)
    requires ParseHexByte(a) == Some(h) && ParseHexByte(b) == Some(l)
    ensures ParseHex4(a + b) == Some(h * 256 + l)
  {
    assert (a + b)[..2] == a && (a + b)[2..] == b;
  }

  lemma {:induction false} UpperHex4Parses(x: U16)
    ensures ParseHex4(UpperHex4(x)) == Some(x)
  {
    UpperHex2Parses(x / 256);
    UpperHex2Parses(x % 256);
    ParseHex4Of(UpperHex2(x / 256), UpperHex2(x % 256), x / 256, x % 256);
  }

  // ---------------------------------------------------------------------------------------------
  // Decimal numbers (`str(n)` / `f"{n}"`)

  function DecimalDigit(d: int): char
    requires 0 <= d < 10
  {
    "0123456789"[d]
  }

  function Decimal(n: nat): (r: string)
    ensures |r| >= 1
    ensures forall i :: 0 <= i < |r| ==> '0' <= r[i] <= '9'
  {
    if n < 10 then [DecimalDigit(n)] else Decimal(n / 10) + [DecimalDigit(n % 10)]
  }

  // ---------------------------------------------------------------------------------------------
  // Joining and splitting strings

  /** `sep.join(parts)`. */
  function Join(parts: seq<string>, sep: string): string
  {
    if |parts| == 0 then ""
    else if |parts| == 1 then parts[0]
    else parts[0] + sep + Join(parts[1..], sep)
  }

  /** `s.split(c)` for a one-character separator: always at least one piece. */
  function Split(s: string, c: char): (r: seq<string>)
    ensures |r| >= 1
    decreases |s|
  {
    if |s| == 0 then [""]
    else if s[0] == c then [""] + Split(s[1..], c)
    else
      var rest := Split(s[1..], c);
      [[s[0]] + rest[0]] + rest[1..]
  }

  /** A piece that does not contain the separator comes back from `Split` whole. */
  lemma {:induction false} SplitWithout(p: string, c: char)
    requires c !in p
    ensures Split(p, c) == [p]
    decreases |p|
  {
    if |p| > 0 {
      assert c !in p[1..];
      SplitWithout(p[1..], c);
      assert [p[0]] + p[1..] == p;
    }
  }

  /** Splitting stops at the first separator after a piece that does not contain it. */
  lemma {:induction false} SplitAfter(p: string, c: char, t: string)
    requires c !in p
    ensures Split(p + [c] + t, c) == [p] + Split(t, c)
    decreases |p|
  {
    if |p| == 0 {
      assert p + [c] + t == [c] + t;
      assert ([c] + t)[1..] == t;
    } else {
      var s := p + [c] + t;
      assert s[0] == p[0] && s[1..] == p[1..] + [c] + t;
      assert c !in p[1..];
      SplitAfter(p[1..], c, t);
      assert [p[0]] + p[1..] == p;
    }
  }

  lemma {:induction false} SplitJoin(parts: seq<string>, c: char)
    requires |parts| >= 1
    requires forall i :: 0 <= i < |parts| ==> c !in parts[i]
    ensures Split(Join(parts, [c]), c) == parts
    decreases |parts|
  {
    if |parts| == 1 {
      SplitWithout(parts[0], c);
    } else {
      SplitJoin(parts[1..], c);
      SplitAfter(parts[0], c, Join(parts[1..], [c]));
      assert parts == [parts[0]] + parts[1..];
    }
  }

  /** Every piece with `x` put in front of it. */
  function Prefixed(x: string, parts: seq<string>): seq<string>
  {
    seq(|parts|, i requires 0 <= i < |parts| => x + parts[i])
  }

  /** Text in front of a join belongs to its first piece. */
  lemma PrependFirst(x: string, qs: seq<string>, sep: string)
    requires |qs| >= 1
    ensures x + Join(qs, sep) == Join([x + qs[0]] + qs[1..], sep)
  {
    var ps := [x + qs[0]] + qs[1..];
    assert ps[1..] == qs[1..];
    if |qs| > 1 {
      assert x + (qs[0] + sep + Join(qs[1..], sep)) == (x + qs[0]) + sep + Join(qs[1..], sep);
    }
  }

  /** Joining with a separator `[c] + x` is joining with `[c]` after putting `x` in front of
      every piece but the first. */
  lemma {:induction false} JoinSpaced(parts: seq<string>, c: char, x: string)
    requires |parts| >= 1
    ensures Join(parts, [c] + x) == Join([parts[0]] + Prefixed(x, parts[1..]), [c])
    decreases |parts|
  {
    if |parts| > 1 {
      var rest := parts[1..];
      JoinSpaced(rest, c, x);
      var qs := [rest[0]] + Prefixed(x, rest[1..]);
      PrependFirst(x, qs, [c]);
      assert [x + qs[0]] + qs[1..] == Prefixed(x, rest);
      var ps := [parts[0]] + Prefixed(x, rest);
      assert ps[1..] == Prefixed(x, rest);
      calc {
        Join(parts, [c] + x);
        parts[0] + ([c] + x) + Join(rest, [c] + x);
        parts[0] + [c] + (x + Join(qs, [c]));
        parts[0] + [c] + Join(Prefixed(x, rest), [c]);
        Join(ps, [c]);
      }
    }
  }

  /** Splitting a join whose separator is `[c] + x` returns the pieces, each after the first
      with `x` in front, when neither the pieces nor `x` contain `c`. */
  lemma SplitSpaced(parts: seq<string>, c: char, x: string)
    requires |parts| >= 1 && c !in x
    requires forall i :: 0 <= i < |parts| ==> c !in parts[i]
    ensures Split(Join(parts, [c] + x), c) == [parts[0]] + Prefixed(x, parts[1..])
  {
    JoinSpaced(parts, c, x);
    var ps := [parts[0]] + Prefixed(x, parts[1..]);
    forall i | 0 <= i < |ps| ensures c !in ps[i] {
      if i > 0 {
        assert ps[i] == x + parts[i];
      }
    }
    SplitJoin(ps, c);
  }

  /** A join begins with its first piece. */
  lemma JoinStarts(parts: seq<string>, sep: string)
    requires |parts| >= 1
    ensures parts[0] <= Join(parts, sep)
  {
    if |parts| > 1 {
      assert Join(parts, sep) == parts[0] + (sep + Join(parts[1..], sep));
    }
  }

  /** Length of joined pieces that all have the same length `w`. */
  lemma {:induction false} JoinLength(parts: seq<string>, sep: string, w: nat)
    requires |parts| >= 1
    requires forall i :: 0 <= i < |parts| ==> |parts[i]| == w
    ensures |Join(parts, sep)| == w * |parts| + |sep| * (|parts| - 1)
    decreases |parts|
  {
    if |parts| > 1 {
      JoinLength(parts[1..], sep, w);
    }
  }

  // ---------------------------------------------------------------------------------------------
  // Substrings (`t in s`)

  predicate OccursAt(s: string, t: string, i: int)
  {
    0 <= i && i + |t| <= |s| && s[i..i + |t|] == t
  }

  predicate Contains(s: string, t: string)
  {
    exists i | 0 <= i <= |s| :: OccursAt(s, t, i)
  }

  /** Regrouping a concatenation of five strings. */
  lemma Regroup(a: string, b: string, c: string, d: string, e: string)
    ensures a + b + c + d + e == a + (b + c) + (d + e)
    ensures a + b + c + d + e == a + b + (c + d + e)
  {
  }

  /** Where each of four concatenated strings sits. */
  lemma Layout4(a: string, b: string, c: string, d: string)
    ensures var s := a + b + c + d;
      && |s| == |a| + |b| + |c| + |d|
      && OccursAt(s, a, 0) && OccursAt(s, b, |a|) && OccursAt(s, c, |a| + |b|)
      && OccursAt(s, d, |a| + |b| + |c|)
  {
    var s := a + b + c + d;
    assert s[..|a|] == a;
    assert s[|a|..|a| + |b|] == b;
    assert s[|a| + |b|..|a| + |b| + |c|] == c;
    assert s[|a| + |b| + |c|..] == d;
  }

  /** Where each of five concatenated strings sits. */
  lemma Layout5(a: string, b: string, c: string, d: string, e: string)
    ensures var s := a + b + c + d + e;
      && |s| == |a| + |b| + |c| + |d| + |e|
      && OccursAt(s, a, 0) && OccursAt(s, b, |a|) && OccursAt(s, c, |a| + |b|)
      && OccursAt(s, d, |a| + |b| + |c|) && OccursAt(s, e, |a| + |b| + |c| + |d|)
  {
    Layout4(a, b, c, d);
    var s := a + b + c + d + e;
    var t := a + b + c + d;
    assert s[..|t|] == t;
    assert s[|t|..] == e;
    assert OccursAt(s, d, |a| + |b| + |c|) by {
      assert s[|a| + |b| + |c|..|t|] == t[|a| + |b| + |c|..|t|];
    }
  }

  lemma ContainsWithin(a: string, t: string, b: string)
    ensures Contains(a + t + b, t)
  {
    var s := a + t + b;
    assert s[|a|..|a| + |t|] == t;
    assert OccursAt(s, t, |a|);
  }
}
