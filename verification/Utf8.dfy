/**
 Well-formed UTF-8 as section 4 of RFC 3629 writes it, and the verdict of
 `std::str::from_utf8`, which tells a cut code point from an ill-formed one.
 */
module Utf8 {
  import opened Foundation

  predicate IsTail(b: byte) { 0x80 <= b <= 0xBF }

  /** The `UTF8-char` production. */
  predicate IsChar(c: bytes) {
    match |c|
    case 1 => c[0] <= 0x7F
    case 2 => 0xC2 <= c[0] <= 0xDF && IsTail(c[1])
    case 3 =>
      && ((c[0] == 0xE0 && 0xA0 <= c[1] <= 0xBF)
          || (0xE1 <= c[0] <= 0xEC && IsTail(c[1]))
          || (c[0] == 0xED && 0x80 <= c[1] <= 0x9F)
          || (0xEE <= c[0] <= 0xEF && IsTail(c[1])))
      && IsTail(c[2])
    case 4 =>
      && ((c[0] == 0xF0 && 0x90 <= c[1] <= 0xBF)
          || (0xF1 <= c[0] <= 0xF3 && IsTail(c[1]))
          || (c[0] == 0xF4 && 0x80 <= c[1] <= 0x8F))
      && IsTail(c[2]) && IsTail(c[3])
    case _ => false
  }

  function Flatten(chars: seq<bytes>): bytes {
    if chars == [] then [] else chars[0] + Flatten(chars[1..])
  }

  /** The `UTF8-octets` production: a concatenation of characters. */
  ghost predicate WellFormed(s: bytes) {
    exists chars: seq<bytes> :: Flatten(chars) == s && forall c <- chars :: IsChar(c)
  }

  /** `utf8_char_width`: the length a lead byte announces, 0 for a byte that cannot lead. */
  function Width(lead: byte): nat {
    if lead <= 0x7F then 1
    else if 0xC2 <= lead <= 0xDF then 2
    else if 0xE0 <= lead <= 0xEF then 3
    else if 0xF0 <= lead <= 0xF4 then 4
    else 0
  }

  datatype Verdict = Valid | Cut | Invalid

  /** The second byte is checked against the lead, as the scanner's `match (first, next!())` does. */
  predicate SecondFits(lead: byte, second: byte) {
    && IsTail(second)
    && (lead == 0xE0 ==> 0xA0 <= second)
    && (lead == 0xED ==> second <= 0x9F)
    && (lead == 0xF0 ==> 0x90 <= second)
    && (lead == 0xF4 ==> second <= 0x8F)
  }

  /** One character at the front of `s`: `Valid` when whole, `Cut` when the input ends inside it. */
  function ScanChar(s: bytes): Verdict
    requires s != []
  {
    var w := Width(s[0]);
    if w == 0 then Invalid
    else if w == 1 then Valid
    else if |s| < 2 then Cut
    else if !SecondFits(s[0], s[1]) then Invalid
    else if w == 2 then Valid
    else if |s| < 3 then Cut
    else if !IsTail(s[2]) then Invalid
    else if w == 3 then Valid
    else if |s| < 4 then Cut
    else if !IsTail(s[3]) then Invalid
    else Valid
  }

  /** `Valid` for `Ok`, `Cut` for an error whose `error_len` is `None`, `Invalid` otherwise. */
  function FromUtf8(s: bytes): Verdict {
    if s == [] then Valid
    else
      match ScanChar(s)
      case Valid => assert Width(s[0]) <= |s|; FromUtf8(s[Width(s[0])..])
      case other => other
  }

  lemma ScanCharIsChar(s: bytes)
    requires s != []
    ensures ScanChar(s) == Valid <==> 1 <= Width(s[0]) <= |s| && IsChar(s[..Width(s[0])])
  {
  }

  /** A lead byte announces its character's length, so a character at the front is found. */
  lemma CharAtFront(c: bytes, rest: bytes)
    requires IsChar(c)
    ensures ScanChar(c + rest) == Valid && Width((c + rest)[0]) == |c|
    ensures (c + rest)[|c|..] == rest
  {
    assert (c + rest)[0] == c[0];
  }

  /** The scanner says `Valid` on exactly the strings the grammar derives. */
  lemma {:induction false} ValidIffWellFormed(s: bytes)
    ensures FromUtf8(s) == Valid <==> WellFormed(s)
  {
    if FromUtf8(s) == Valid {
      var chars := Chars(s);
    }
    if WellFormed(s) {
      var chars: seq<bytes> :| Flatten(chars) == s && forall c <- chars :: IsChar(c);
      FlattenIsValid(chars);
    }
  }

  /** The characters of a string the scanner accepts. */
  ghost function Chars(s: bytes): (chars: seq<bytes>)
    requires FromUtf8(s) == Valid
    ensures Flatten(chars) == s && forall c <- chars :: IsChar(c)
  {
    if s == [] then []
    else
      ScanCharIsChar(s);
      var w := Width(s[0]);
      var rest := Chars(s[w..]);
      assert s == s[..w] + s[w..];
      [s[..w]] + rest
  }

  lemma {:induction false} FlattenIsValid(chars: seq<bytes>)
    requires forall c <- chars :: IsChar(c)
    ensures FromUtf8(Flatten(chars)) == Valid
  {
    if chars != [] {
      FlattenIsValid(chars[1..]);
      CharAtFront(chars[0], Flatten(chars[1..]));
    }
  }

  /** Well-formed text followed by a string: the verdict is that string's own. */
  lemma {:induction false} ValidPrefix(a: bytes, b: bytes)
    requires FromUtf8(a) == Valid
    ensures FromUtf8(a + b) == FromUtf8(b)
  {
    if a == [] {
      assert a + b == b;
    } else {
      var w := Width(a[0]);
      ScanCharIsChar(a);
      assert (a + b)[..w] == a[..w];
      ScanCharIsChar(a + b);
      assert (a + b)[w..] == a[w..] + b;
      ValidPrefix(a[w..], b);
    }
  }

  /** Cutting well-formed text before an ASCII byte, or at its end, leaves two well-formed halves. */
  lemma {:induction false} SplitBeforeAscii(a: bytes, b: bytes)
    requires FromUtf8(a + b) == Valid
    requires b != [] ==> b[0] <= 0x7F
    ensures FromUtf8(a) == Valid && FromUtf8(b) == Valid
  {
    if a == [] {
      assert a + b == b;
    } else {
      var w := Width(a[0]);
      assert (a + b)[0] == a[0];
      ScanCharIsChar(a + b);
      assert b != [] ==> (a + b)[|a|] == b[0];
      assert w <= |a|;
      assert (a + b)[..w] == a[..w];
      ScanCharIsChar(a);
      assert (a + b)[w..] == a[w..] + b;
      SplitBeforeAscii(a[w..], b);
    }
  }

  /** The same just after an ASCII byte, where every line terminator ends. */
  lemma SplitAfterAscii(a: bytes, b: bytes)
    requires FromUtf8(a + b) == Valid
    requires a != [] && a[|a| - 1] <= 0x7F
    ensures FromUtf8(a) == Valid && FromUtf8(b) == Valid
  {
    var init, last := a[..|a| - 1], [a[|a| - 1]];
    assert a + b == init + (last + b);
    SplitBeforeAscii(init, last + b);
    assert (last + b)[1..] == b;
    assert init + last == a;
    ValidPrefix(init, last);
    assert last[1..] == [];
  }

  /** A front of well-formed text is never `Invalid`. */
  lemma {:induction false} FrontOfValid(s: bytes, t: bytes)
    requires FromUtf8(s + t) == Valid
    ensures FromUtf8(s) != Invalid
  {
    if s != [] {
      var w := Width(s[0]);
      assert (s + t)[0] == s[0];
      ScanCharIsChar(s + t);
      if w <= |s| {
        assert (s + t)[..w] == s[..w];
        ScanCharIsChar(s);
        assert (s + t)[w..] == s[w..] + t;
        FrontOfValid(s[w..], t);
      } else {
        assert forall k :: 0 <= k < |s| ==> (s + t)[..w][k] == s[k];
      }
    }
  }

  /** Bytes that finish a code point cut after its lead byte and perhaps more. */
  function Completion(s: bytes): (t: bytes)
    requires s != [] && ScanChar(s) == Cut
    ensures ScanChar(s + t) == Valid && Width(s[0]) == |s + t|
  {
    var second: byte := if s[0] == 0xE0 then 0xA0 else if s[0] == 0xF0 then 0x90 else 0x80;
    var full := [second, 0x80, 0x80];
    full[|s| - 1..Width(s[0]) - 1]
  }

  lemma {:induction false} CutCanBeCompleted(s: bytes)
    requires FromUtf8(s) != Invalid
    ensures exists t: bytes :: FromUtf8(s + t) == Valid
  {
    if s == [] {
      assert FromUtf8(s + []) == Valid;
    } else if ScanChar(s) == Cut {
      var t := Completion(s);
      assert (s + t)[|s + t|..] == [];
      assert FromUtf8(s + t) == Valid;
    } else {
      var w := Width(s[0]);
      CutCanBeCompleted(s[w..]);
      var t: bytes :| FromUtf8(s[w..] + t) == Valid;
      ScanCharIsChar(s);
      assert (s + t)[..w] == s[..w];
      ScanCharIsChar(s + t);
      assert (s + t)[w..] == s[w..] + t;
      assert FromUtf8(s + t) == Valid;
    }
  }

  /** Not `Invalid` is exactly: a prefix of some well-formed string. */
  lemma NotInvalidIffPrefix(s: bytes)
    ensures FromUtf8(s) != Invalid <==> exists t: bytes :: WellFormed(s + t)
  {
    if FromUtf8(s) != Invalid {
      CutCanBeCompleted(s);
      var t: bytes :| FromUtf8(s + t) == Valid;
      ValidIffWellFormed(s + t);
    }
    if t: bytes :| WellFormed(s + t) {
      ValidIffWellFormed(s + t);
      FrontOfValid(s, t);
    }
  }
}
