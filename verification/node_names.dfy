/**
 * Graph node names (retinas.py, lines 121 and 126-127) and how the pose
 * chaining reads them back (lines 141-142 and 150-155).  A body is named
 * "b" followed by its index in decimal, a camera "c" followed by its index.
 *
 * The source reads a name back with `int(name[1])`: the tag character and
 * the SINGLE character after it.  `DecodeAsWritten` models that reading and
 * `DecodeAsWrittenExact` shows it is right exactly for indices below 10;
 * `Decode` reads every digit and inverts `Encode` for all indices.
 */
module NodeNames {
  import opened Base
  import opened ObservationGraph

  predicate IsDigit(c: char) {
    '0' <= c <= '9'
  }

  function DigitChar(d: nat): (c: char)
    requires d < 10
    ensures IsDigit(c)
  {
    ('0' as int + d) as char
  }

  function DigitValue(c: char): (d: nat)
    requires IsDigit(c)
    ensures d < 10
  {
    c as int - '0' as int
  }

  /** Python's `str` of a non-negative integer: its decimal digits, no leading zero. */
  function NatToDecimal(n: nat): (s: string)
    ensures |s| >= 1
    ensures forall k :: 0 <= k < |s| ==> IsDigit(s[k])
    ensures n >= 10 <==> |s| >= 2
    decreases n
  {
    if n < 10 then [DigitChar(n)] else NatToDecimal(n / 10) + [DigitChar(n % 10)]
  }

  /** The value of a string of decimal digits. */
  function DecimalValue(s: string): nat
    requires forall k :: 0 <= k < |s| ==> IsDigit(s[k])
    decreases |s|
  {
    if |s| == 0 then 0 else 10 * DecimalValue(s[..|s| - 1]) + DigitValue(s[|s| - 1])
  }

  /** Reading the digits back gives the number written. */
  lemma {:induction false} DecimalRoundTrip(n: nat)
    ensures DecimalValue(NatToDecimal(n)) == n
    decreases n
  {
    var s := NatToDecimal(n);
    if n >= 10 {
      DecimalRoundTrip(n / 10);
      assert s[..|s| - 1] == NatToDecimal(n / 10);
    }
  }

  /** The name of a node in the graph. */
  function Encode(n: Node): (name: string)
    ensures |name| >= 2 && name[0] == (if n.B? then 'b' else 'c')
    ensures forall k :: 1 <= k < |name| ==> IsDigit(name[k])
  {
    (if n.B? then "b" else "c") + NatToDecimal(if n.B? then n.i else n.j)
  }

  /** The node of tag `t` with index `x`, when `t` is a node tag. */
  function NodeOf(t: char, x: nat): Option<Node> {
    if t == 'b' then Some(B(x)) else if t == 'c' then Some(C(x)) else None
  }

  /**
   * The source's reading of a name: the tag, then the one character at
   * position 1 as the index.  `None` where the source would raise.
   */
  function DecodeAsWritten(name: string): (r: Option<Node>)
    ensures r.Some? ==> |name| >= 2 && name[0] in {'b', 'c'} && IsDigit(name[1]) && Index(r.value) < 10
  {
    if |name| >= 2 && IsDigit(name[1]) then NodeOf(name[0], DigitValue(name[1])) else None
  }

  /** Reading every character after the tag as the decimal index. */
  function Decode(name: string): (r: Option<Node>)
    ensures r.Some? ==> |name| >= 2 && name[0] in {'b', 'c'}
  {
    if |name| >= 2 && forall k :: 1 <= k < |name| ==> IsDigit(name[k]) then NodeOf(name[0], DecimalValue(name[1..]))
    else None
  }

  /** `Decode` inverts `Encode` for every node. */
  lemma DecodeRoundTrip(n: Node)
    ensures Decode(Encode(n)) == Some(n)
  {
    var name := Encode(n);
    assert name[1..] == NatToDecimal(Index(n));
    DecimalRoundTrip(Index(n));
  }

  /** Hence distinct nodes get distinct names. */
  lemma EncodeInjective(n: Node, m: Node)
    ensures Encode(n) == Encode(m) <==> n == m
  {
    if Encode(n) == Encode(m) {
      DecodeRoundTrip(n);
      DecodeRoundTrip(m);
    }
  }

  /** The source's reading gives back the node exactly when its index is below 10. */
  lemma DecodeAsWrittenExact(n: Node)
    ensures DecodeAsWritten(Encode(n)) == Some(n) <==> Index(n) < 10
  {
    var name := Encode(n);
    if Index(n) < 10 {
      assert name[1] == DigitChar(Index(n));
    }
  }

  /** Body 10 is read back as body 1. */
  lemma DecodeAsWrittenLosesIndex()
    ensures Encode(B(10)) == "b10"
    ensures DecodeAsWritten("b10") == Some(B(1))
  {
    assert NatToDecimal(10) == NatToDecimal(1) + [DigitChar(0)];
  }
}
