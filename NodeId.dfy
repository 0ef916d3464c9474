/** Conversion between a mesh node number and its `!xxxxxxxx` text form
    (`int_to_node_id` and `node_id_to_int`). */
module NodeId {
  import opened Wrappers
  import PyText

  /** The `08` of the format spec `{:08x}`. */
  const NODE_ID_WIDTH: nat := 8

  predicate IsLowerHexDigit(c: char) {
    '0' <= c <= '9' || 'a' <= c <= 'f'
  }

  /** A digit Python's `int(_, 16)` accepts (ASCII only). */
  predicate IsHexDigit(c: char) {
    IsLowerHexDigit(c) || 'A' <= c <= 'F'
  }

  predicate AllHexDigits(s: string) {
    forall i :: 0 <= i < |s| ==> IsHexDigit(s[i])
  }

  predicate AllLowerHexDigits(s: string) {
    forall i :: 0 <= i < |s| ==> IsLowerHexDigit(s[i])
  }

  function DigitValue(c: char): (d: nat)
    requires IsHexDigit(c)
    ensures d < 16
  {
    if '0' <= c <= '9' then c as int - '0' as int
    else if 'a' <= c <= 'f' then c as int - 'a' as int + 10
    else c as int - 'A' as int + 10
  }

  /** The lower-case digit that format spec `x` prints for `d`. */
  function DigitChar(d: nat): (c: char)
    requires d < 16
    ensures IsLowerHexDigit(c) && DigitValue(c) == d
  {
    if d < 10 then ('0' as int + d) as char else ('a' as int + d - 10) as char
  }

  /** The number a string of hex digits denotes, most significant first. */
  function HexValue(s: string): nat
    requires AllHexDigits(s)
  {
    if s == [] then 0 else HexValue(s[..|s| - 1]) * 16 + DigitValue(s[|s| - 1])
  }

  function Pow16(k: nat): (p: nat)
    ensures p >= 1
  {
    if k == 0 then 1 else 16 * Pow16(k - 1)
  }

  /** Format spec `x` on a non-negative number: the shortest lower-case hex
      numeral, which denotes the number. */
  function Hex(x: nat): (s: string)
    ensures 1 <= |s| && AllLowerHexDigits(s)
    ensures HexValue(s) == x
    ensures |s| > 1 ==> s[0] != '0'
  {
    if x < 16 then [DigitChar(x)] else Hex(x / 16) + [DigitChar(x % 16)]
  }

  /** Left padding with `'0'` to at least `width` characters. */
  function ZeroPad(s: string, width: nat): (r: string)
    ensures |r| == if |s| < width then width else |s|
    ensures r[|r| - |s|..] == s
    ensures forall i :: 0 <= i < |r| - |s| ==> r[i] == '0'
  {
    if |s| < width then seq(width - |s|, _ => '0') + s else s
  }

  /** `int_to_node_id`: `!` and the number in hex, zero-padded to eight
      digits. For a 32-bit number the text is exactly nine characters. */
  function IntToNodeId(x: nat): (r: string)
    ensures |r| >= 1 + NODE_ID_WIDTH && r[0] == '!'
    ensures AllLowerHexDigits(r[1..])
    ensures HexValue(r[1..]) == x
    ensures x < 0x1_0000_0000 ==> |r| == 1 + NODE_ID_WIDTH
  {
    var padded := ZeroPad(Hex(x), NODE_ID_WIDTH);
    PaddedHex(x);
    assert ("!" + padded)[1..] == padded;
    "!" + padded
  }

  lemma PaddedHex(x: nat)
    ensures var padded := ZeroPad(Hex(x), NODE_ID_WIDTH);
      && AllLowerHexDigits(padded)
      && HexValue(padded) == x
      && (x < 0x1_0000_0000 ==> |padded| == NODE_ID_WIDTH)
  {
    var h := Hex(x);
    var padded := ZeroPad(h, NODE_ID_WIDTH);
    LeadingZerosValue(padded, |padded| - |h|);
    if x < 0x1_0000_0000 {
      Pow16Width();
      HexLength(x, NODE_ID_WIDTH);
    }
  }

  /** Eight hex digits span exactly the 32-bit numbers. */
  lemma Pow16Width()
    ensures Pow16(NODE_ID_WIDTH) == 0x1_0000_0000
  {
    assert Pow16(1) == 16;
    assert Pow16(2) == 0x100;
    assert Pow16(3) == 0x1000;
    assert Pow16(4) == 0x1_0000;
    assert Pow16(5) == 0x10_0000;
    assert Pow16(6) == 0x100_0000;
    assert Pow16(7) == 0x1000_0000;
  }

  /** Zero digits at the front do not change the value. */
  lemma {:induction false} LeadingZerosValue(s: string, k: nat)
    requires k <= |s| && AllHexDigits(s)
    requires forall i :: 0 <= i < k ==> s[i] == '0'
    ensures HexValue(s) == HexValue(s[k..])
    decreases |s|
  {
    if k < |s| {
      var n := |s| - 1;
      assert s[..n][k..] == s[k..][..|s[k..]| - 1];
      LeadingZerosValue(s[..n], k);
    } else if s != [] {
      assert s[..|s| - 1][..] == s[..|s| - 1];
      LeadingZerosValue(s[..|s| - 1], k - 1);
    }
  }

  /** A number below 16^k has at most k digits. */
  lemma {:induction false} HexLength(x: nat, k: nat)
    requires 1 <= k && x < Pow16(k)
    ensures |Hex(x)| <= k
    decreases k
  {
    if x >= 16 {
      assert Pow16(1) == 16;
      assert x / 16 < Pow16(k - 1);
      HexLength(x / 16, k - 1);
    }
  }

  /** The digit groups Python's `int` accepts: hex digits, with single
      underscores allowed between two digits. */
  predicate DigitGroups(s: string) {
    |s| > 0 && IsHexDigit(s[0]) && GroupsTail(s[1..])
  }

  /** What may follow a digit inside a literal: more digits, or one
      underscore followed by a digit. */
  predicate GroupsTail(s: string)
    decreases |s|
  {
    || s == []
    || (IsHexDigit(s[0]) && GroupsTail(s[1..]))
    || (|s| >= 2 && s[0] == '_' && IsHexDigit(s[1]) && GroupsTail(s[2..]))
  }

  lemma {:induction false} GroupsTailChars(s: string)
    requires GroupsTail(s)
    ensures forall i :: 0 <= i < |s| ==> IsHexDigit(s[i]) || s[i] == '_'
    decreases |s|
  {
    if s != [] {
      if IsHexDigit(s[0]) && GroupsTail(s[1..]) {
        GroupsTailChars(s[1..]);
        assert forall i :: 1 <= i < |s| ==> s[i] == s[1..][i - 1];
      } else {
        GroupsTailChars(s[2..]);
        assert forall i :: 2 <= i < |s| ==> s[i] == s[2..][i - 2];
      }
    }
  }

  lemma DigitGroupsChars(s: string)
    requires DigitGroups(s)
    ensures forall i :: 0 <= i < |s| ==> IsHexDigit(s[i]) || s[i] == '_'
  {
    GroupsTailChars(s[1..]);
    assert forall i :: 1 <= i < |s| ==> s[i] == s[1..][i - 1];
  }

  lemma {:induction false} AllDigitsGroupsTail(s: string)
    requires AllHexDigits(s)
    ensures GroupsTail(s)
    decreases |s|
  {
    if s != [] {
      assert AllHexDigits(s[1..]) by {
        assert forall i :: 0 <= i < |s| - 1 ==> s[1..][i] == s[i + 1];
      }
      AllDigitsGroupsTail(s[1..]);
    }
  }

  function RemoveUnderscores(s: string): (r: string)
    ensures (forall i :: 0 <= i < |s| ==> IsHexDigit(s[i]) || s[i] == '_') ==> AllHexDigits(r)
    ensures AllHexDigits(s) ==> r == s
  {
    if s == [] then [] else (if s[0] == '_' then [] else [s[0]]) + RemoveUnderscores(s[1..])
  }

  /** The unsigned body of a base-16 literal: an optional `0x`/`0X` prefix,
      optionally followed by one underscore, then digit groups. */
  function ParseMagnitude(s: string): Option<nat> {
    var body :=
      if |s| >= 2 && s[0] == '0' && (s[1] == 'x' || s[1] == 'X') then
        (var d := s[2..]; if |d| > 0 && d[0] == '_' then d[1..] else d)
      else s;
    if DigitGroups(body) then
      DigitGroupsChars(body);
      Some(HexValue(RemoveUnderscores(body)))
    else None
  }

  /** The white space `int()` skips around a literal. CPython first turns
      every non-ASCII white-space character into a space and then skips only
      TAB..CR and SPACE, so the separators U+001C..U+001F, which
      `str.isspace` accepts, make `int()` raise. */
  predicate IsIntSpace(c: char) {
    PyText.IsSpace(c) && !(0x1C <= c as int <= 0x1F)
  }

  /** The white space `int()` skips before the literal. */
  function SkipLeadingIntSpace(s: string): (r: string)
    ensures |r| <= |s| && r == s[|s| - |r|..]
    ensures forall i :: 0 <= i < |s| - |r| ==> IsIntSpace(s[i])
    ensures r == [] || !IsIntSpace(r[0])
  {
    if s != [] && IsIntSpace(s[0]) then SkipLeadingIntSpace(s[1..]) else s
  }

  /** The white space `int()` skips after the literal. */
  function SkipTrailingIntSpace(s: string): (r: string)
    ensures |r| <= |s| && r == s[..|r|]
    ensures forall i :: |r| <= i < |s| ==> IsIntSpace(s[i])
    ensures r == [] || !IsIntSpace(r[|r| - 1])
  {
    if s != [] && IsIntSpace(s[|s| - 1]) then SkipTrailingIntSpace(s[..|s| - 1]) else s
  }

  /** What `int()` parses: the text without the white space it skips. */
  function IntLiteralText(s: string): string {
    SkipTrailingIntSpace(SkipLeadingIntSpace(s))
  }

  /** Python's `int(s, 16)`: the white space `int()` skips is ignored, one
      sign is allowed; anything else that is not a literal raises (here:
      `None`). */
  function ParseHexInt(s: string): Option<int> {
    var t := IntLiteralText(s);
    var negative := |t| > 0 && t[0] == '-';
    var rest := if |t| > 0 && (t[0] == '+' || t[0] == '-') then t[1..] else t;
    match ParseMagnitude(rest)
    case None => None
    case Some(v) =>
      var n: int := if negative then -(v as int) else v as int;
      Some(n)
  }

  /** `node_id_to_int`: drops one leading `!` when present, then
      `int(_, 16)`. On the text `int_to_node_id` gives for a 32-bit number,
      `!` and eight lower-case digits, it is the inverse: it yields a 32-bit
      number whose text is the input. */
  function NodeIdToInt(s: string): (r: Option<int>)
    ensures |s| == 1 + NODE_ID_WIDTH && s[0] == '!' && AllLowerHexDigits(s[1..]) ==>
      && r.Some? && 0 <= r.value < 0x1_0000_0000
      && IntToNodeId(r.value) == s
  {
    if |s| > 0 && s[0] == '!' then
      CanonicalDigits(s[1..]);
      assert "!" + s[1..] == s;
      ParseHexInt(s[1..])
    else ParseHexInt(s)
  }

  /** Eight lower-case digits are the text `int_to_node_id` gives their
      value, and `int(_, 16)` reads that value back. */
  lemma CanonicalDigits(p: string)
    ensures |p| == NODE_ID_WIDTH && AllLowerHexDigits(p) ==>
      && ParseHexInt(p) == Some(HexValue(p))
      && HexValue(p) < 0x1_0000_0000
      && IntToNodeId(HexValue(p)) == "!" + p
  {
    if |p| == NODE_ID_WIDTH && AllLowerHexDigits(p) {
      ParseLowerDigits(p);
      HexValueBound(p);
      Pow16Width();
      ZeroPadCanonical(p);
    }
  }

  /** `k` digits denote a number below 16^k. */
  lemma {:induction false} HexValueBound(s: string)
    requires AllHexDigits(s)
    ensures HexValue(s) < Pow16(|s|)
    decreases |s|
  {
    if s != [] {
      HexValueBound(s[..|s| - 1]);
    }
  }

  /** Format spec `x` gives back a numeral that has no leading zero. */
  lemma {:induction false} HexCanonical(q: string)
    requires q != [] && AllLowerHexDigits(q)
    requires |q| > 1 ==> q[0] != '0'
    ensures Hex(HexValue(q)) == q
    decreases |q|
  {
    var n := |q| - 1;
    var d := DigitValue(q[n]);
    DigitRoundTrip(q[n]);
    var pre := q[..n];
    assert HexValue(q) == HexValue(pre) * 16 + d;
    if n == 0 {
      assert q == [q[n]];
    } else {
      assert pre[0] == q[0];
      assert AllLowerHexDigits(pre);
      HexValueLeading(pre);
      HexCanonical(pre);
      ShiftDigit(HexValue(pre), d);
      assert q == pre + [q[n]];
    }
  }

  /** A lower-case digit is the digit printed for its value. */
  lemma DigitRoundTrip(c: char)
    requires IsLowerHexDigit(c)
    ensures DigitChar(DigitValue(c)) == c
  {
  }

  /** Appending a digit to a numeral of a positive number adds one step of
      format spec `x`. */
  lemma ShiftDigit(a: nat, d: nat)
    requires a >= 1 && d < 16
    ensures Hex(a * 16 + d) == Hex(a) + [DigitChar(d)]
  {
    var x := a * 16 + d;
    assert x / 16 == a && x % 16 == d;
  }

  /** A numeral whose first digit is not zero denotes a positive number. */
  lemma {:induction false} HexValueLeading(q: string)
    requires q != [] && AllHexDigits(q) && q[0] != '0'
    ensures HexValue(q) >= 1
    decreases |q|
  {
    if |q| > 1 {
      var pre := q[..|q| - 1];
      assert pre[0] == q[0];
      HexValueLeading(pre);
    }
  }

  /** Padding the numeral of a digit string's value back to the string's
      length gives back the string, leading zeros included. */
  lemma {:induction false} ZeroPadCanonical(p: string)
    requires p != [] && AllLowerHexDigits(p)
    ensures ZeroPad(Hex(HexValue(p)), |p|) == p
    decreases |p|
  {
    if |p| == 1 || p[0] != '0' {
      HexCanonical(p);
    } else {
      var tail := p[1..];
      assert AllLowerHexDigits(tail);
      LeadingZerosValue(p, 1);
      ZeroPadCanonical(tail);
      var h := Hex(HexValue(p));
      assert ZeroPad(h, |tail|) == tail;
      assert |h| <= |tail|;
      ZeroPadStep(h, |tail|);
      assert p == [p[0]] + tail;
    }
  }

  /** One more column of padding is one more leading `'0'`. */
  lemma ZeroPadStep(h: string, w: nat)
    requires |h| <= w
    ensures ZeroPad(h, w + 1) == ['0'] + ZeroPad(h, w)
  {
    var z := seq(w + 1 - |h|, _ => '0');
    var z' := seq(w - |h|, _ => '0');
    assert z == ['0'] + z';
    assert ZeroPad(h, w + 1) == z + h;
    assert ZeroPad(h, w) == z' + h;
    assert (['0'] + z') + h == ['0'] + (z' + h);
  }

  /** A plain run of digits, not starting with a `0x` prefix, parses to
      the number it denotes. */
  lemma MagnitudeOfDigits(s: string)
    requires s != [] && AllHexDigits(s)
    requires !(|s| >= 2 && s[0] == '0' && (s[1] == 'x' || s[1] == 'X'))
    ensures ParseMagnitude(s) == Some(HexValue(s))
  {
    assert AllHexDigits(s[1..]) by {
      assert forall i :: 0 <= i < |s| - 1 ==> s[1..][i] == s[i + 1];
    }
    AllDigitsGroupsTail(s[1..]);
    assert DigitGroups(s);
  }

  /** `int(_, 16)` of at least two lower-case digits is their value. */
  lemma ParseLowerDigits(p: string)
    requires |p| >= 2 && AllLowerHexDigits(p)
    ensures ParseHexInt(p) == Some(HexValue(p))
  {
    assert IsLowerHexDigit(p[0]) && IsLowerHexDigit(p[|p| - 1]);
    IntLiteralOfPlainText(p);
    assert AllHexDigits(p) by {
      forall i | 0 <= i < |p| ensures IsHexDigit(p[i]) {
        assert IsLowerHexDigit(p[i]);
      }
    }
    MagnitudeOfDigits(p);
    var t := IntLiteralText(p);
    assert t == p;
    assert !(t[0] == '+' || t[0] == '-');
  }

  /** Text that neither starts nor ends with white space is parsed as it
      is. */
  lemma IntLiteralOfPlainText(s: string)
    requires s == [] || (!IsIntSpace(s[0]) && !IsIntSpace(s[|s| - 1]))
    ensures IntLiteralText(s) == s
  {
    if s != [] {
      assert SkipLeadingIntSpace(s) == s;
    }
  }

  /** The decoder inverts the encoder, for every non-negative number. */
  lemma RoundTrip(x: nat)
    ensures NodeIdToInt(IntToNodeId(x)) == Some(x)
  {
    var r := IntToNodeId(x);
    assert NodeIdToInt(r) == ParseHexInt(r[1..]);
    ParseLowerDigits(r[1..]);
  }

  /** Distinct numbers have distinct text forms. */
  lemma IntToNodeIdInjective(x: nat, y: nat)
    ensures IntToNodeId(x) == IntToNodeId(y) ==> x == y
  {
    RoundTrip(x);
    RoundTrip(y);
  }

  /** The leading `!` is optional: text with it and text without it give
      the same result, unless the text after it starts with another `!`. */
  lemma BangOptional(u: string)
    requires u == [] || u[0] != '!'
    ensures NodeIdToInt("!" + u) == NodeIdToInt(u)
  {
    assert ("!" + u)[1..] == u;
  }

  /** Only one `!` is dropped: a second one makes the text unparsable. */
  lemma DoubleBangRejected(s: string)
    ensures NodeIdToInt("!!" + s) == None
  {
    var u := ("!!" + s)[1..];
    assert u == "!" + s;
    assert !IsIntSpace(u[0]);
    assert SkipLeadingIntSpace(u) == u;
    assert IntLiteralText(u)[0] == '!';
  }

  /** A separator U+001C..U+001F right after the `!` makes `int()` raise,
      whatever follows it. */
  lemma SeparatorRejected(c: char, s: string)
    requires 0x1C <= c as int <= 0x1F
    ensures NodeIdToInt(['!', c] + s) == None
  {
    var u := [c] + s;
    assert (['!', c] + s)[1..] == u;
    assert !IsIntSpace(c) && !IsHexDigit(c);
    assert SkipLeadingIntSpace(u) == u;
    var t := IntLiteralText(u);
    assert t != [] && t[0] == c by {
      assert t == u[..|t|];
    }
    assert !DigitGroups(t);
  }

  /** `str.strip` does remove such a separator at the front of a line: the
      white space of the list files and of `int()` differ. */
  lemma SeparatorStripped(c: char, s: string)
    requires 0x1C <= c as int <= 0x1F
    ensures PyText.Strip([c] + s) == PyText.Strip(s)
  {
    assert PyText.AllSpace([c]);
    PyText.TrimStartSpaces([c], s);
  }
}
