/** Turning header bytes into text the way the library does: lossy UTF-8
    decoding (every maximal invalid prefix becomes one U+FFFD, as Rust's
    `String::from_utf8_lossy` does) and removal of trailing padding
    (`trim_end_matches`). */
module Text {
  import opened TarTypes

  /** The character lossy decoding puts in place of an invalid sequence. */
  const Replacement: char := '\U{FFFD}'

  /** Index i of s holds a continuation byte (10xxxxxx); past the end there is none. */
  predicate IsCont(s: seq<byte>, i: nat) {
    i < |s| && 0x80 <= s[i] < 0xC0
  }

  /** The second byte of a three-byte sequence led by b is in the range UTF-8
      allows for that lead (no overlong forms, no surrogates). */
  predicate SecondOfThree(b: byte, s: seq<byte>) {
    |s| > 1 &&
    ((b == 0xE0 && 0xA0 <= s[1] <= 0xBF) ||
     (0xE1 <= b <= 0xEC && 0x80 <= s[1] <= 0xBF) ||
     (b == 0xED && 0x80 <= s[1] <= 0x9F) ||
     (0xEE <= b <= 0xEF && 0x80 <= s[1] <= 0xBF))
  }

  /** The second byte of a four-byte sequence led by b is in the range UTF-8
      allows for that lead (no overlong forms, nothing above U+10FFFF). */
  predicate SecondOfFour(b: byte, s: seq<byte>) {
    |s| > 1 &&
    ((b == 0xF0 && 0x90 <= s[1] <= 0xBF) ||
     (0xF1 <= b <= 0xF3 && 0x80 <= s[1] <= 0xBF) ||
     (b == 0xF4 && 0x80 <= s[1] <= 0x8F))
  }

  /** What lossy decoding consumes from the front of the input: `len` bytes
      that become the one character `c`. */
  datatype Unit = Unit(len: nat, c: char)

  /** The first unit of s: a well-formed sequence and the scalar value it
      encodes, or the longest prefix that starts a sequence but cannot be
      completed, which becomes one U+FFFD. */
  function NextUnit(s: seq<byte>): (u: Unit)
    requires s != []
    ensures 1 <= u.len <= |s| && u.len <= 4
    ensures s[0] < 0x80 ==> u == Unit(1, s[0] as char)
    ensures s[0] >= 0x80 ==> u.c as int >= 0x80
  {
    var b := s[0];
    if b < 0x80 then Unit(1, b as char)
    else if 0xC2 <= b <= 0xDF then
      if IsCont(s, 1) then Unit(2, ((b as int - 0xC0) * 0x40 + (s[1] as int - 0x80)) as char)
      else Unit(1, Replacement)
    else if 0xE0 <= b <= 0xEF then
      if !SecondOfThree(b, s) then Unit(1, Replacement)
      else if !IsCont(s, 2) then Unit(2, Replacement)
      else Unit(3, ((b as int - 0xE0) * 0x1000 + (s[1] as int - 0x80) * 0x40 + (s[2] as int - 0x80)) as char)
    else if 0xF0 <= b <= 0xF4 then
      if !SecondOfFour(b, s) then Unit(1, Replacement)
      else if !IsCont(s, 2) then Unit(2, Replacement)
      else if !IsCont(s, 3) then Unit(3, Replacement)
      else Unit(4, ((b as int - 0xF0) * 0x40000 + (s[1] as int - 0x80) * 0x1000 + (s[2] as int - 0x80) * 0x40 + (s[3] as int - 0x80)) as char)
    else Unit(1, Replacement)
  }

  /** `String::from_utf8_lossy`: the characters of s's units, in order. */
  function Utf8Lossy(s: seq<byte>): (r: string)
    ensures |r| <= |s|
    ensures r == [] <==> s == []
    decreases |s|, 1
  {
    if s == [] then [] else LossyFrom(s)
  }

  /** Lossy decoding of a non-empty input: its first unit, then the rest. */
  function LossyFrom(s: seq<byte>): (r: string)
    requires s != []
    ensures 1 <= |r| <= |s|
    decreases |s|, 0
  {
    var u := NextUnit(s);
    [u.c] + Utf8Lossy(s[u.len..])
  }

  /** Each byte read as the character with that code. */
  function Chars(s: seq<byte>): (r: string)
    ensures |r| == |s|
    ensures forall i | 0 <= i < |s| :: r[i] as int == s[i]
  {
    seq(|s|, i requires 0 <= i < |s| => s[i] as char)
  }

  /** `trim_end_matches(pad)`: s without its trailing run of `pad`. */
  function TrimEnd<T(==)>(s: seq<T>, pad: T): (r: seq<T>)
    ensures r <= s
    ensures r == [] || r[|r| - 1] != pad
    ensures forall i | |r| <= i < |s| :: s[i] == pad
    decreases |s|
  {
    if s != [] && s[|s| - 1] == pad then TrimEnd(s[..|s| - 1], pad) else s
  }

  /** The three properties of TrimEnd's contract determine its result. */
  lemma TrimEndUnique<T>(s: seq<T>, pad: T, p: seq<T>)
    requires p <= s
    requires p == [] || p[|p| - 1] != pad
    requires forall i | |p| <= i < |s| :: s[i] == pad
    ensures TrimEnd(s, pad) == p
  {
  }

  /** Trimming removes everything exactly when the input is all padding. */
  lemma TrimEndEmpty<T>(s: seq<T>, pad: T)
    ensures TrimEnd(s, pad) == [] <==> forall i | 0 <= i < |s| :: s[i] == pad
  {
    if forall i | 0 <= i < |s| :: s[i] == pad {
      TrimEndUnique(s, pad, []);
    }
  }

  /** A byte below 0x80 never continues a sequence, so decoding splits there. */
  lemma NextUnitAppend(s: seq<byte>, t: seq<byte>)
    requires s != []
    requires t == [] || t[0] < 0x80
    ensures NextUnit(s + t) == NextUnit(s)
  {
    var st := s + t;
    assert st[0] == s[0];
    forall i: nat | i < 4 ensures IsCont(st, i) == IsCont(s, i) || i > |s| {
      if i < |s| { assert st[i] == s[i]; }
    }
    if |s| > 1 {
      assert st[1] == s[1];
      assert SecondOfThree(s[0], st) == SecondOfThree(s[0], s);
      assert SecondOfFour(s[0], st) == SecondOfFour(s[0], s);
    }
    if |s| > 2 { assert st[2] == s[2]; }
    if |s| > 3 { assert st[3] == s[3]; }
  }

  /** Decoding distributes over a split in front of an ASCII byte. */
  lemma {:induction false} LossyAppend(s: seq<byte>, t: seq<byte>)
    requires t == [] || t[0] < 0x80
    ensures Utf8Lossy(s + t) == Utf8Lossy(s) + Utf8Lossy(t)
    decreases |s|
  {
    if s == [] {
      assert s + t == t;
    } else {
      var u := NextUnit(s);
      NextUnitAppend(s, t);
      assert (s + t)[u.len..] == s[u.len..] + t;
      LossyAppend(s[u.len..], t);
    }
  }

  predicate IsAscii(s: seq<byte>) {
    forall i | 0 <= i < |s| :: s[i] < 0x80
  }

  /** ASCII bytes decode to the characters with the same codes. */
  lemma {:induction false} LossyOfAscii(s: seq<byte>)
    requires IsAscii(s)
    ensures Utf8Lossy(s) == Chars(s)
    decreases |s|
  {
    if s != [] {
      assert NextUnit(s) == Unit(1, s[0] as char);
      assert Utf8Lossy(s) == [s[0] as char] + Utf8Lossy(s[1..]);
      assert IsAscii(s[1..]) by {
        forall i | 0 <= i < |s[1..]| ensures s[1..][i] < 0x80 { assert s[1..][i] == s[i + 1]; }
      }
      LossyOfAscii(s[1..]);
      assert Chars(s) == [s[0] as char] + Chars(s[1..]);
    }
  }

  /** A byte at or above 0x80 anywhere in the input leaves a character at
      or above U+0080 in the text. */
  lemma {:induction false} LossyOfNonAscii(s: seq<byte>, i: nat)
    requires i < |s| && s[i] >= 0x80
    ensures exists j :: 0 <= j < |Utf8Lossy(s)| && Utf8Lossy(s)[j] as int >= 0x80
    decreases |s|
  {
    var u := NextUnit(s);
    var r := Utf8Lossy(s);
    assert r == LossyFrom(s) == [u.c] + Utf8Lossy(s[u.len..]);
    if s[0] >= 0x80 {
      assert r[0] == u.c;
    } else {
      assert u.len == 1 && i > 0;
      assert s[1..][i - 1] == s[i];
      LossyOfNonAscii(s[1..], i - 1);
      var j :| 0 <= j < |Utf8Lossy(s[1..])| && Utf8Lossy(s[1..])[j] as int >= 0x80;
      assert r[j + 1] == Utf8Lossy(s[1..])[j];
    }
  }

  /** Bytes are all ASCII exactly when the decoded text is, and then
      decoding keeps every code. */
  lemma LossyAscii(s: seq<byte>)
    ensures IsAscii(s) <==> forall j | 0 <= j < |Utf8Lossy(s)| :: Utf8Lossy(s)[j] as int < 0x80
    ensures IsAscii(s) ==> Utf8Lossy(s) == Chars(s)
  {
    if IsAscii(s) {
      LossyOfAscii(s);
    } else {
      var i :| 0 <= i < |s| && s[i] >= 0x80;
      LossyOfNonAscii(s, i);
    }
  }

  /** Bytes are all zero exactly when the decoded text is all U+0000. */
  lemma {:induction false} LossyAllNul(s: seq<byte>)
    ensures (forall i | 0 <= i < |s| :: s[i] == 0) <==>
            (forall j | 0 <= j < |Utf8Lossy(s)| :: Utf8Lossy(s)[j] == '\0')
    decreases |s|
  {
    if s != [] {
      var u := NextUnit(s);
      var r := Utf8Lossy(s);
      LossyAllNul(s[u.len..]);
      assert r == LossyFrom(s) == [u.c] + Utf8Lossy(s[u.len..]);
      if forall i | 0 <= i < |s| :: s[i] == 0 {
        assert u == Unit(1, '\0');
        var t := Utf8Lossy(s[1..]);
        LossyAllNul(s[1..]);
        assert forall i | 0 <= i < |s[1..]| :: s[1..][i] == 0;
        assert forall k | 0 <= k < |t| :: t[k] == '\0';
        assert r == ['\0'] + t;
        forall j | 0 <= j < |r| ensures r[j] == '\0' {
          if j > 0 {
            assert r[j] == t[j - 1];
          }
        }
      } else {
        var i :| 0 <= i < |s| && s[i] != 0;
        if s[0] == 0 {
          assert u.len == 1 && i > 0;
          assert s[1..][i - 1] == s[i];
          var j :| 0 <= j < |Utf8Lossy(s[1..])| && Utf8Lossy(s[1..])[j] != '\0';
          assert r[j + 1] == Utf8Lossy(s[1..])[j];
          assert Utf8Lossy(s)[j + 1] != '\0';
          assert (forall i | 0 <= i < |s| :: s[i] == 0) <==> (forall j | 0 <= j < |Utf8Lossy(s)| :: Utf8Lossy(s)[j] == '\0');
        } else {
          assert u.c != '\0';
          assert Utf8Lossy(s)[0] == u.c;
        }
      }
    }
  }

  /** Text decoded from bytes that do not end in zero does not end in U+0000. */
  lemma {:induction false} LossyLastNotNul(s: seq<byte>)
    requires s != [] && s[|s| - 1] != 0
    ensures Utf8Lossy(s) != [] && Utf8Lossy(s)[|Utf8Lossy(s)| - 1] != '\0'
    decreases |s|
  {
    var u := NextUnit(s);
    var rest := s[u.len..];
    assert Utf8Lossy(s) == [u.c] + Utf8Lossy(rest);
    if rest == [] {
      assert s[0] == 0 ==> u.len == 1;
    } else {
      assert rest[|rest| - 1] == s[|s| - 1];
      LossyLastNotNul(rest);
    }
  }

  /** Removing trailing U+0000 after decoding is the same as removing trailing
      zero bytes before it. */
  lemma TrimNulAfterLossy(s: seq<byte>)
    ensures TrimEnd(Utf8Lossy(s), '\0') == Utf8Lossy(TrimEnd(s, 0))
  {
    var t := TrimEnd(s, 0);
    var z := s[|t|..];
    assert s == t + z;
    LossyAppend(t, z);
    LossyAllNul(z);
    if t != [] {
      LossyLastNotNul(t);
    }
    var lt := Utf8Lossy(t);
    var lz := Utf8Lossy(z);
    forall i | |lt| <= i < |lt + lz| ensures (lt + lz)[i] == '\0' {
      assert (lt + lz)[i] == lz[i - |lt|];
    }
    TrimEndUnique(Utf8Lossy(s), '\0', lt);
  }

  /** A byte that can never start a UTF-8 sequence. */
  predicate NeverLeads(b: byte) {
    (0x80 <= b < 0xC2) || b >= 0xF5
  }

  /** Lossy decoding is not injective: a byte that cannot start a sequence
      becomes U+FFFD on its own, whichever byte it is, so two different
      name fields can decode to the same name. */
  lemma LossyCollides(b1: byte, b2: byte, t: seq<byte>)
    requires NeverLeads(b1) && NeverLeads(b2)
    ensures Utf8Lossy([b1] + t) == [Replacement] + Utf8Lossy(t) == Utf8Lossy([b2] + t)
  {
    assert ([b1] + t)[1..] == t;
    assert ([b2] + t)[1..] == t;
    assert NextUnit([b1] + t) == Unit(1, Replacement);
    assert NextUnit([b2] + t) == Unit(1, Replacement);
  }
}
