/** Octets on the wire, the ASCII tokens the protocol engine compares against,
    and the small string and integer helpers of Go's standard library that the
    engine relies on (strings.Index on one byte, strings.TrimSuffix on one byte,
    strconv.Atoi and the %d verb). */
module Wire {

  /** One octet of a Go string or byte slice. */
  newtype byte = x: int | 0 <= x < 256

  type Bytes = seq<byte>

  datatype Option<T> = None | Some(value: T)

  const NL: byte := 10     // '\n'
  const SP: byte := 32     // ' '
  const QUOTE: byte := 34  // '"'
  const PLUS: byte := 43   // '+'
  const MINUS: byte := 45  // '-'
  const ZERO: byte := 48   // '0'
  const COLON: byte := 58  // ':'

  const OK: Bytes := [79, 75]                                   // "OK"
  const ACK: Bytes := [65, 67, 75]                              // "ACK"
  const BINARY: Bytes := [98, 105, 110, 97, 114, 121]           // "binary"
  const SIZE: Bytes := [115, 105, 122, 101]                     // "size"
  const ALBUMART: Bytes := [97, 108, 98, 117, 109, 97, 114, 116] // "albumart"

  /** The position of the first `b` in `s`, if there is one. */
  function IndexOf(s: Bytes, b: byte): (r: Option<nat>)
    ensures r.Some? ==> r.value < |s| && s[r.value] == b && b !in s[..r.value]
    ensures r.None? ==> b !in s
  {
    if |s| == 0 then None
    else if s[0] == b then Some(0)
    else
      match IndexOf(s[1..], b)
      case None =>
        assert s == [s[0]] + s[1..];
        None
      case Some(i) =>
        assert s[..i + 1] == [s[0]] + s[1..][..i];
        Some(i + 1)
  }

  /** Any position holding the first `b` is the one IndexOf reports. */
  lemma IndexOfIsFirst(s: Bytes, b: byte, i: nat)
    requires i < |s| && s[i] == b && b !in s[..i]
    ensures IndexOf(s, b) == Some(i)
  {
  }

  /** Dropping `i` bytes and then `j` more, or taking `j` of what is left. */
  lemma DropDrop(s: Bytes, i: nat, j: nat)
    requires i + j <= |s|
    ensures s[i..][j..] == s[i + j..]
    ensures s[i..][..j] == s[i..i + j]
  {
  }

  // Regrouping and slicing concatenations, kept apart from the machine.

  lemma Regroup(a: Bytes, b: Bytes, c: Bytes)
    ensures (a + b) + c == a + (b + c)
  {
  }

  /** Cutting `s == a + rest` after `a` and `n` more bytes, `j` being where
      the second cut falls. */
  lemma AfterPrefix(a: Bytes, rest: Bytes, s: Bytes, n: nat, j: nat)
    requires s == a + rest && n <= |rest| && j == |a| + n
    ensures |s| - |a| == |rest| && j <= |s| && s[|a|..j] == rest[..n] && s[j..] == rest[n..]
  {
    assert s[|a|..] == rest;
    DropDrop(s, |a|, n);
  }

  /** `t` is what is left of `s` once some leading bytes are consumed. */
  predicate SuffixOf(t: Bytes, s: Bytes) {
    |t| <= |s| && t == s[|s| - |t|..]
  }

  /** Dropping `k` leading bytes leaves a suffix. */
  lemma SuffixAfter(s: Bytes, k: nat)
    requires k <= |s|
    ensures SuffixOf(s[k..], s)
  {
  }

  /** A suffix of a suffix of `s` is a suffix of `s`. */
  lemma SuffixOfSuffix(s: Bytes, skip: nat, t: Bytes)
    requires skip <= |s| && SuffixOf(t, s[skip..])
    ensures SuffixOf(t, s)
  {
    DropDrop(s, skip, |s| - skip - |t|);
  }

  /** strings.TrimSuffix(s, string(b)): drop one trailing `b`, if present. */
  function TrimSuffix(s: Bytes, b: byte): (r: Bytes)
    ensures |s| > 0 && s[|s| - 1] == b ==> r + [b] == s
    ensures (|s| == 0 || s[|s| - 1] != b) ==> r == s
  {
    if |s| > 0 && s[|s| - 1] == b then s[..|s| - 1] else s
  }

  /** TrimSuffix strips exactly one copy: a text that does not itself end in `b` comes back whole. */
  lemma TrimSuffixOnce(t: Bytes, b: byte)
    ensures TrimSuffix(t + [b], b) == t
  {
    assert (t + [b])[..|t|] == t;
  }

  predicate IsDigit(c: byte) {
    ZERO <= c <= ZERO + 9
  }

  predicate AllDigits(s: Bytes) {
    forall i :: 0 <= i < |s| ==> IsDigit(s[i])
  }

  /** The number a run of decimal digits denotes, read left to right; None
      when `s` holds a byte that is not a digit. */
  function Digits(s: Bytes): Option<nat> {
    if |s| == 0 then Some(0)
    else
      match Digits(s[..|s| - 1])
      case None => None
      case Some(v) => if IsDigit(s[|s| - 1]) then Some(10 * v + (s[|s| - 1] - ZERO) as int) else None
  }

  /** strconv.Atoi: an optional sign followed by one or more decimal digits;
      anything else is a syntax error. Range errors are out of scope, since
      `int` is unbounded here. */
  function Atoi(s: Bytes): (r: Option<int>)
    ensures r.Some? ==> |s| > 0
    ensures r.Some? && r.value < 0 ==> s[0] == MINUS
  {
    var signed := |s| > 0 && (s[0] == PLUS || s[0] == MINUS);
    var digits := if signed then s[1..] else s;
    if |digits| == 0 then None
    else
      match Digits(digits)
      case None => None
      case Some(v) => if signed && s[0] == MINUS then Some(-(v as int)) else Some(v)
  }

  /** fmt's %d of a non-negative integer: its decimal digits, no sign, no leading zero. */
  function Decimal(n: nat): (r: Bytes)
    ensures |r| > 0 && AllDigits(r)
    ensures |r| > 1 ==> r[0] != ZERO
  {
    if n < 10 then [ZERO + n as byte] else Decimal(n / 10) + [ZERO + (n % 10) as byte]
  }

  /** %d and Atoi are inverse: the text of a count reads back as that count. */
  lemma {:induction false} AtoiDecimal(n: nat)
    ensures Atoi(Decimal(n)) == Some(n)
    ensures NL !in Decimal(n) && SP !in Decimal(n)
  {
    DecimalValue(n);
  }

  lemma {:induction false} DecimalValue(n: nat)
    ensures Digits(Decimal(n)) == Some(n)
  {
    if n >= 10 {
      DecimalValue(n / 10);
      var d := Decimal(n);
      assert d[..|d| - 1] == Decimal(n / 10);
    } else {
      assert Decimal(n)[..0] == [];
    }
  }

  /** A byte that is not a digit makes the whole run unreadable. */
  lemma {:induction false} DigitsRejects(s: Bytes, i: nat)
    requires i < |s| && !IsDigit(s[i])
    ensures Digits(s) == None
    decreases |s|
  {
    if i < |s| - 1 {
      DigitsRejects(s[..|s| - 1], i);
    }
  }

  /** A negative count written with a minus sign reads back as that negative number. */
  lemma AtoiNegative(n: nat)
    ensures Atoi([MINUS] + Decimal(n)) == Some(-(n as int))
  {
    DecimalValue(n);
    assert ([MINUS] + Decimal(n))[1..] == Decimal(n);
  }

  /** Text holding a byte that is neither a digit nor a leading sign does not parse. */
  lemma AtoiRejects(s: Bytes, i: nat)
    requires i < |s| && !IsDigit(s[i]) && (i > 0 || (s[0] != PLUS && s[0] != MINUS))
    ensures Atoi(s) == None
  {
    if |s| > 0 && (s[0] == PLUS || s[0] == MINUS) {
      assert s[1..][i - 1] == s[i];
      DigitsRejects(s[1..], i - 1);
    } else {
      DigitsRejects(s, i);
    }
  }

  /** A text Atoi accepts holds neither a space nor a newline, so it is a
      whole field of a response line. */
  lemma AtoiPlain(s: Bytes)
    requires Atoi(s).Some?
    ensures SP !in s && NL !in s
  {
    if SP in s || NL in s {
      var i :| 0 <= i < |s| && (s[i] == SP || s[i] == NL);
      AtoiRejects(s, i);
    }
  }
}
