/** Numbers laid out as bytes, the lowest first. */
module Fields {
  import opened Words

  predicate HalfLaid(s: seq<u8>, at: nat, value: int) {
    at + 2 <= |s| && 0 <= value < 0x1_0000 && s[at] as int == value % 0x100 && s[at + 1] as int == value / 0x100
  }

  predicate WordLaid(s: seq<u8>, at: nat, value: int) {
    && at + 4 <= |s| && 0 <= value < 0x1_0000_0000
    && s[at] as int == value % 0x100 && s[at + 1] as int == value / 0x100 % 0x100
    && s[at + 2] as int == value / 0x1_0000 % 0x100 && s[at + 3] as int == value / 0x100_0000
  }

  /** The low half and then the high half. */
  predicate XwordLaid(s: seq<u8>, at: nat, value: int) {
    && at + 8 <= |s| && 0 <= value < 0x1_0000_0000_0000_0000
    && WordLaid(s, at, value % 0x1_0000_0000) && WordLaid(s, at + 4, value / 0x1_0000_0000)
  }

  lemma HalfIs(s: seq<u8>, at: nat, value: int)
    requires at + 2 <= |s|
    ensures HalfLaid(s, at, value) <==> U16At(s, at) == value
  {
    DivisionIs(U16At(s, at), 0x100, s[at + 1], s[at]);
  }

  lemma WordIs(s: seq<u8>, at: nat, value: int)
    requires at + 4 <= |s|
    ensures WordLaid(s, at, value) <==> U32At(s, at) == value
  {
    var a, b, c, d := s[at] as int, s[at + 1] as int, s[at + 2] as int, s[at + 3] as int;
    var w := a + 0x100 * b + 0x1_0000 * c + 0x100_0000 * d;
    DivisionIs(w, 0x100, b + 0x100 * c + 0x1_0000 * d, a);
    DivisionIs(w / 0x100, 0x100, c + 0x100 * d, b);
    DivisionIs(w, 0x1_0000, c + 0x100 * d, a + 0x100 * b);
    DivisionIs(w / 0x1_0000, 0x100, d, c);
    DivisionIs(w, 0x100_0000, d, a + 0x100 * b + 0x1_0000 * c);
    if WordLaid(s, at, value) {
      BytesMakeWord(value);
    }
  }

  lemma BytesMakeWord(x: u32)
    ensures x % 0x100 + 0x100 * (x / 0x100 % 0x100) + 0x1_0000 * (x / 0x1_0000 % 0x100) + 0x100_0000 * (x / 0x100_0000)
      == x
  {
    var one := x / 0x100;
    var two := one / 0x100;
    DivisionIs(x, 0x1_0000, two, x - 0x1_0000 * two);
    DivisionIs(x, 0x100_0000, two / 0x100, x - 0x100_0000 * (two / 0x100));
  }

  lemma XwordIs(s: seq<u8>, at: nat, value: int)
    requires at + 8 <= |s|
    ensures XwordLaid(s, at, value) <==> U64At(s, at) == value
  {
    hide WordLaid, U32At;
    if 0 <= value < 0x1_0000_0000_0000_0000 {
      WordIs(s, at, value % 0x1_0000_0000);
      WordIs(s, at + 4, value / 0x1_0000_0000);
    }
    DivisionIs(U64At(s, at), 0x1_0000_0000, U32At(s, at + 4), U32At(s, at));
  }
}
