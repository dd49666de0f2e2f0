/**
 Printing IPv6 addresses one character at a time (ucIpv6AddressHumanReadableIo.c), against
 the canonical text of section 4 of RFC 5952.
 */
module Ipv6AddressText {
  import opened LowpanTypes

  type Address = gs: seq<uint16> | |gs| == 8 witness [0, 0, 0, 0, 0, 0, 0, 0]

  type nibble = x: int | 0 <= x < 0x10

  // ---------------------------------------------------------------------------
  // The canonical text
  // ---------------------------------------------------------------------------

  function HexChar(d: nibble): char {
    "0123456789abcdef"[d]
  }

  /** A number in hexadecimal, without leading zeros. */
  function HexText(n: nat): string {
    if n < 0x10 then [HexChar(n)] else HexText(n / 0x10) + [HexChar(n % 0x10)]
  }

  function Joined(gs: seq<uint16>): string {
    if |gs| == 0 then ""
    else if |gs| == 1 then HexText(gs[0])
    else HexText(gs[0]) + ":" + Joined(gs[1..])
  }

  predicate ZeroRun(gs: seq<uint16>, first: nat, num: nat) {
    first + num <= |gs| && forall i :: first <= i < first + num ==> gs[i] == 0
  }

  /** The run that "::" stands for: the first of the longest, of two groups or more. */
  ghost predicate Chosen(gs: seq<uint16>, first: nat, num: nat) {
    && ZeroRun(gs, first, num) && num >= 2
    && forall f: nat, n: nat :: ZeroRun(gs, f, n) ==> n < num || (n == num && first <= f)
  }

  ghost predicate NothingToShorten(gs: seq<uint16>) {
    forall f: nat, n: nat :: ZeroRun(gs, f, n) ==> n < 2
  }

  function Shortened(gs: seq<uint16>, first: nat, num: nat): string
    requires first + num <= |gs|
  {
    Joined(gs[..first]) + "::" + Joined(gs[first + num..])
  }

  ghost predicate Canonical(gs: Address, text: string) {
    || (NothingToShorten(gs) && text == Joined(gs))
    || exists first: nat, num: nat :: Chosen(gs, first, num) && text == Shortened(gs, first, num)
  }

  /** There is one canonical text at most. */
  lemma CanonicalIsUnique(gs: Address, text: string, other: string)
    requires Canonical(gs, text) && Canonical(gs, other)
    ensures text == other
  {
  }

  // ---------------------------------------------------------------------------
  // A parser of such texts
  // ---------------------------------------------------------------------------

  function HexValue(c: char): Option<nibble> {
    if '0' <= c <= '9' then Some(c as int - '0' as int)
    else if 'a' <= c <= 'f' then Some(c as int - 'a' as int + 10)
    else None
  }

  function Zeros(n: nat): (zs: seq<uint16>)
    ensures |zs| == n && forall i :: 0 <= i < n ==> zs[i] == 0
  {
    if n == 0 then [] else [0] + Zeros(n - 1)
  }

  /** Reads on after the groups done, within a number if there is one, with "::" seen after gap groups if there was one. */
  function ParseOn(text: string, done: seq<uint16>, number: Option<uint16>, gap: Option<nat>): Option<Address>
    requires gap.Some? ==> gap.value <= |done|
    decreases |text|
  {
    var all := match number case Some(n) => done + [n] case None => done;
    if |text| == 0 then
      match gap
      case None => if |all| == 8 && number.Some? then Some(all) else None
      case Some(k) =>
        if |all| > 8 || (number.None? && k != |all|) then None
        else Some(all[..k] + Zeros(8 - |all|) + all[k..])
    else if text[0] == ':' then
      if |text| >= 2 && text[1] == ':' then
        if gap.Some? then None else ParseOn(text[2..], all, None, Some(|all|))
      else if number.None? then None
      else ParseOn(text[1..], all, None, gap)
    else
      match HexValue(text[0])
      case None => None
      case Some(d) =>
        var n := (if number.Some? then number.value else 0) * 0x10 + d;
        if n > 0xffff then None else ParseOn(text[1..], done, Some(n), gap)
  }

  function Parse(text: string): Option<Address> {
    ParseOn(text, [], None, None)
  }

  lemma HexCharIsNoColon(d: nibble)
    ensures HexChar(d) != ':' && HexValue(HexChar(d)) == Some(d)
  {
  }

  lemma {:induction false} NumberParses(n: uint16, text: string, done: seq<uint16>, gap: Option<nat>)
    requires gap.Some? ==> gap.value <= |done|
    ensures ParseOn(HexText(n) + text, done, None, gap) == ParseOn(text, done, Some(n), gap)
  {
    if n < 0x10 {
      HexCharIsNoColon(n);
      assert (HexText(n) + text)[1..] == text;
    } else {
      var d := n % 0x10;
      HexCharIsNoColon(d);
      assert HexText(n) + text == HexText(n / 0x10) + ([HexChar(d)] + text);
      NumberParses(n / 0x10, [HexChar(d)] + text, done, gap);
      assert ([HexChar(d)] + text)[1..] == text;
      assert n / 0x10 * 0x10 + d == n;
    }
  }

  lemma ColonParses(text: string, done: seq<uint16>, n: uint16, gap: Option<nat>)
    requires |text| > 0 && text[0] != ':' && (gap.Some? ==> gap.value <= |done|)
    ensures ParseOn(":" + text, done, Some(n), gap) == ParseOn(text, done + [n], None, gap)
  {
    assert (":" + text)[1..] == text;
  }

  lemma {:induction false} JoinedParses(gs: seq<uint16>, text: string, done: seq<uint16>, gap: Option<nat>)
    requires |gs| > 0 && (gap.Some? ==> gap.value <= |done|)
    ensures ParseOn(Joined(gs) + text, done, None, gap) == ParseOn(text, done + gs[..|gs| - 1], Some(gs[|gs| - 1]), gap)
  {
    hide ParseOn, HexText;
    if |gs| == 1 {
      NumberParses(gs[0], text, done, gap);
      assert done + gs[..0] == done;
    } else {
      var rest := Joined(gs[1..]) + text;
      assert Joined(gs) + text == HexText(gs[0]) + (":" + rest);
      NumberParses(gs[0], ":" + rest, done, gap);
      JoinedStarts(gs[1..]);
      ColonParses(rest, done, gs[0], gap);
      JoinedParses(gs[1..], text, done + [gs[0]], gap);
      assert done + [gs[0]] + gs[1..][..|gs| - 2] == done + gs[..|gs| - 1];
    }
  }

  lemma {:induction false} HexTextStarts(n: nat)
    ensures |HexText(n)| > 0 && HexText(n)[0] != ':'
  {
    if n < 0x10 {
      HexCharIsNoColon(n);
    } else {
      HexTextStarts(n / 0x10);
    }
  }

  lemma JoinedStarts(gs: seq<uint16>)
    requires |gs| > 0
    ensures |Joined(gs)| > 0 && Joined(gs)[0] != ':'
  {
    HexTextStarts(gs[0]);
  }

  /** The canonical text is parsed to the address. */
  lemma CanonicalParses(gs: Address, text: string)
    requires Canonical(gs, text)
    ensures Parse(text) == Some(gs)
  {
    if NothingToShorten(gs) && text == Joined(gs) {
      JoinedParses(gs, "", [], None);
      assert Joined(gs) + "" == Joined(gs);
      assert [] + gs[..7] + [gs[7]] == gs;
    } else {
      var first: nat, num: nat :| Chosen(gs, first, num) && text == Shortened(gs, first, num);
      ShortenedParses(gs, first, num);
    }
  }

  /** At the end of a text with "::", zeros stand in for what is missing. */
  lemma {:induction false} GapIsFilled(gs: Address, first: nat, num: nat, done: seq<uint16>, number: Option<uint16>)
    requires first + num <= 8 && ZeroRun(gs, first, num) && first <= |done|
    requires gs[..first] + gs[first + num..] == if number.Some? then done + [number.value] else done
    requires number.Some? || first + num == 8
    ensures ParseOn("", done, number, Some(first)) == Some(gs)
  {
    hide HexValue;
    hide ZeroRun;
    var left, right := gs[..first], gs[first + num..];
    assert (left + right)[..first] == left && (left + right)[first..] == right;
    ZerosFill(gs, first, num);
  }

  lemma ZerosFill(gs: Address, first: nat, num: nat)
    requires first + num <= 8 && ZeroRun(gs, first, num)
    ensures gs[..first] + Zeros(num) + gs[first + num..] == gs
  {
  }

  lemma ShortenedParses(gs: Address, first: nat, num: nat)
    requires first + num <= 8 && ZeroRun(gs, first, num)
    ensures Parse(Shortened(gs, first, num)) == Some(gs)
  {
    hide Joined;
    hide ZeroRun;
    var left, right := gs[..first], gs[first + num..];
    var tail := "::" + Joined(right);
    LeftOfGapParses(left, Joined(right));
    assert Joined(left) + tail == Joined(left) + "::" + Joined(right);
    if |right| > 0 {
      JoinedParses(right, "", left, Some(first));
      assert Joined(right) + "" == Joined(right);
      assert left + right[..|right| - 1] + [right[|right| - 1]] == left + right;
      GapIsFilled(gs, first, num, left + right[..|right| - 1], Some(right[|right| - 1]));
    } else {
      assert Joined(right) == "" by { NothingJoined(); }
      assert left + right == left;
      GapIsFilled(gs, first, num, left, None);
    }
  }

  lemma NothingJoined()
    ensures Joined([]) == ""
  {
  }

  lemma GapParses(text: string, done: seq<uint16>, number: Option<uint16>)
    ensures var all := if number.Some? then done + [number.value] else done;
            ParseOn("::" + text, done, number, None) == ParseOn(text, all, None, Some(|all|))
  {
    assert ("::" + text)[2..] == text;
  }

  lemma {:induction false} LeftOfGapParses(left: seq<uint16>, text: string)
    ensures ParseOn(Joined(left) + ("::" + text), [], None, None) == ParseOn(text, left, None, Some(|left|))
  {
    hide Joined, ParseOn;
    var tail := "::" + text;
    if |left| > 0 {
      var last := left[|left| - 1];
      JoinedParses(left, tail, [], None);
      GapParses(text, [] + left[..|left| - 1], Some(last));
      assert [] + left[..|left| - 1] + [last] == left;
    } else {
      NothingJoined();
      GapParses(text, [], None);
      assert Joined(left) + tail == tail;
    }
  }

  /** Two addresses never share their text. */
  lemma CanonicalDetermines(gs: Address, other: Address, text: string)
    requires Canonical(gs, text) && Canonical(other, text)
    ensures gs == other
  {
    CanonicalParses(gs, text);
    CanonicalParses(other, text);
  }

  lemma {:induction false} HexTextFits(n: uint16)
    ensures |HexText(n)| <= 4 && (n < 0x10 ==> |HexText(n)| == 1) && (n < 0x100 ==> |HexText(n)| <= 2)
            && (n < 0x1000 ==> |HexText(n)| <= 3)
  {
    if n >= 0x10 {
      HexTextFits(n / 0x10);
    }
  }

  lemma {:induction false} JoinedFits(gs: seq<uint16>)
    ensures |Joined(gs)| <= 5 * |gs| && (|gs| > 0 ==> |Joined(gs)| <= 5 * |gs| - 1)
  {
    if |gs| > 0 {
      HexTextFits(gs[0]);
      if |gs| > 1 {
        JoinedFits(gs[1..]);
      }
    }
  }

  /** A text has 39 characters at most; one with "::" has 32. */
  lemma CanonicalFits(gs: Address, text: string)
    requires Canonical(gs, text)
    ensures 2 <= |text| <= 39
  {
    if NothingToShorten(gs) && text == Joined(gs) {
      JoinedFits(gs);
      JoinedStarts(gs[1..]);
      HexTextStarts(gs[0]);
    } else {
      var first: nat, num: nat :| Chosen(gs, first, num) && text == Shortened(gs, first, num);
      JoinedFits(gs[..first]);
      JoinedFits(gs[first + num..]);
    }
  }

  // ---------------------------------------------------------------------------
  // Digits and groups of the bytes
  // ---------------------------------------------------------------------------

  function GroupsOf(a: seq<byte>): Address
    requires |a| == 16
  {
    seq(8, i requires 0 <= i < 8 => Word(a[2 * i], a[2 * i + 1]))
  }

  function Digit(a: seq<byte>, i: nat): char
    requires |a| == 16 && i < 32
  {
    HexChar(if i % 2 != 0 then a[i / 2] % 0x10 else a[i / 2] / 0x10)
  }

  function Nibble(g: uint16, k: nat): nibble
    requires k < 4
  {
    if k == 0 then g / 0x1000
    else if k == 1 then g / 0x100 % 0x10
    else if k == 2 then g / 0x10 % 0x10
    else g % 0x10
  }

  lemma NibblesOfWord(high: byte, low: byte)
    ensures Nibble(Word(high, low), 0) == high / 0x10 && Nibble(Word(high, low), 1) == high % 0x10
    ensures Nibble(Word(high, low), 2) == low / 0x10 && Nibble(Word(high, low), 3) == low % 0x10
  {
  }

  lemma {:induction false} DigitOfGroup(a: seq<byte>, i: nat)
    requires |a| == 16 && i < 32
    ensures Digit(a, i) == HexChar(Nibble(GroupsOf(a)[i / 4], i % 4))
  {
    hide Nibble;
    hide HexChar;
    hide Word;
    var g, k := i / 4, i % 4;
    var high, low := a[2 * g], a[2 * g + 1];
    assert GroupsOf(a)[g] == Word(high, low);
    NibblesOfWord(high, low);
    if k < 2 {
      assert i / 2 == 2 * g && i % 2 == k;
    } else {
      assert i / 2 == 2 * g + 1 && i % 2 == k - 2;
    }
  }

  /** The digits of a group from the k-th on, zeros included. */
  function Digits(g: uint16, k: nat): string
    requires k <= 4
    decreases 4 - k
  {
    if k == 4 then "" else [HexChar(Nibble(g, k))] + Digits(g, k + 1)
  }

  /** The text of a group is its digits from the first one that is not zero, or from the last. */
  lemma HexTextIsDigits(g: uint16, k: nat)
    requires k < 4 && (k == 3 || Nibble(g, k) != 0) && forall j: nat :: j < k ==> Nibble(g, j) == 0
    ensures HexText(g) == Digits(g, k)
  {
    hide Nibble, HexChar;
    Sizes(g, k);
    assert Digits(g, 4) == "";
    assert Digits(g, 3) == [HexChar(Nibble(g, 3))];
    assert Digits(g, 2) == [HexChar(Nibble(g, 2))] + Digits(g, 3);
    assert Digits(g, 1) == [HexChar(Nibble(g, 1))] + Digits(g, 2);
    assert Digits(g, 0) == [HexChar(Nibble(g, 0))] + Digits(g, 1);
    var a, b, c := g / 0x10, g / 0x100, g / 0x1000;
    assert g >= 0x10 ==> HexText(g) == HexText(a) + [HexChar(Nibble(g, 3))];
    assert g >= 0x100 ==> HexText(a) == HexText(b) + [HexChar(Nibble(g, 2))];
    assert g >= 0x1000 ==> HexText(b) == HexText(c) + [HexChar(Nibble(g, 1))];
  }

  lemma Sizes(g: uint16, k: nat)
    requires k < 4 && (k == 3 || Nibble(g, k) != 0) && forall j: nat :: j < k ==> Nibble(g, j) == 0
    ensures k == 0 ==> g >= 0x1000
    ensures k == 1 ==> 0x100 <= g < 0x1000
    ensures k == 2 ==> 0x10 <= g < 0x100
    ensures k == 3 ==> g < 0x10
    ensures Nibble(g, 3) == g % 0x10 && Nibble(g, 2) == g / 0x10 % 0x10
    ensures Nibble(g, 1) == g / 0x100 % 0x10 && Nibble(g, 0) == g / 0x1000
    ensures g / 0x10 / 0x10 == g / 0x100 && g / 0x100 / 0x10 == g / 0x1000
  {
    assert k > 0 ==> Nibble(g, 0) == 0;
    assert k > 1 ==> Nibble(g, 1) == 0;
    assert k > 2 ==> Nibble(g, 2) == 0;
    FourDigits(g);
  }

  lemma FourDigits(g: uint16)
    ensures g == Nibble(g, 0) * 0x1000 + Nibble(g, 1) * 0x100 + Nibble(g, 2) * 0x10 + Nibble(g, 3)
    ensures g / 0x10 / 0x10 == g / 0x100 && g / 0x100 / 0x10 == g / 0x1000
  {
  }

  lemma HexCharOfZero(d: nibble)
    ensures HexChar(d) == '0' <==> d == 0
  {
  }

  // ---------------------------------------------------------------------------
  // What is left to print
  // ---------------------------------------------------------------------------

  /** Groups zero to next - 1 are a run of zeros, unless zero is 8. */
  predicate Gap(zero: nat, next: nat) {
    zero <= 8 && (zero < 8 ==> zero < next <= 8)
  }

  function From(gs: Address, zero: nat, next: nat, g: nat): string
    requires Gap(zero, next) && g <= 8
    decreases 8 - g, 0
  {
    if g == 8 then "" else HexText(gs[g]) + After(gs, zero, next, g + 1)
  }

  function After(gs: Address, zero: nat, next: nat, g: nat): string
    requires Gap(zero, next) && g <= 8
    decreases 8 - g, 1
  {
    if g == 8 then ""
    else if g == zero then "::" + From(gs, zero, next, next)
    else ":" + From(gs, zero, next, g)
  }

  lemma {:induction false} FromIsJoined(gs: Address, zero: nat, next: nat, g: nat)
    requires Gap(zero, next) && g <= 8 && (zero == 8 || g > zero)
    ensures From(gs, zero, next, g) == Joined(gs[g..])
    decreases 8 - g
  {
    if g < 8 {
      FromIsJoined(gs, zero, next, g + 1);
      assert gs[g..][1..] == gs[g + 1..];
    }
  }

  lemma FromGroup(gs: Address, zero: nat, next: nat, g: nat)
    requires Gap(zero, next) && g < 8
    ensures From(gs, zero, next, g) == HexText(gs[g]) + After(gs, zero, next, g + 1)
  {
    hide HexText, After;
  }

  /** After a group: the end, "::", or ":" and the next group. */
  lemma AfterGroup(gs: Address, zero: nat, next: nat, g: nat)
    requires Gap(zero, next) && g <= 8
    ensures g == 8 ==> After(gs, zero, next, g) == ""
    ensures g < 8 && g == zero ==> After(gs, zero, next, g) == "::" + From(gs, zero, next, next)
    ensures g < 8 && g != zero ==> After(gs, zero, next, g) == ":" + From(gs, zero, next, g)
  {
    hide From;
  }

  lemma {:induction false} FromIsShortened(gs: Address, zero: nat, next: nat, g: nat)
    requires Gap(zero, next) && g < zero < 8
    ensures From(gs, zero, next, g) == Joined(gs[g..zero]) + "::" + Joined(gs[next..])
    decreases 8 - g
  {
    hide HexText, From, After;
    FromGroup(gs, zero, next, g);
    AfterGroup(gs, zero, next, g + 1);
    FromIsJoined(gs, zero, next, next);
    if g + 1 < zero {
      FromIsShortened(gs, zero, next, g + 1);
      assert gs[g..zero][1..] == gs[g + 1..zero];
    }
  }

  datatype Action = Number | SingleColon | FirstDoubleColon | SecondDoubleColon | Stop

  predicate Reachable(zero: nat, next: nat, action: Action, i: nat) {
    && Gap(zero, next) && i <= 32
    && (action.Number? ==> i < 32)
    && (action.SingleColon? ==> i < 32 && i % 4 == 0)
    && (action.FirstDoubleColon? || action.SecondDoubleColon? ==> i % 4 == 0)
  }

  function Rest(gs: Address, zero: nat, next: nat, action: Action, i: nat): string
    requires Reachable(zero, next, action, i)
  {
    match action
    case Number =>
      if i % 4 == 0 then From(gs, zero, next, i / 4)
      else Digits(gs[i / 4], i % 4) + After(gs, zero, next, i / 4 + 1)
    case SingleColon => ":" + From(gs, zero, next, i / 4)
    case FirstDoubleColon => "::" + From(gs, zero, next, i / 4)
    case SecondDoubleColon => ":" + From(gs, zero, next, i / 4)
    case Stop => ""
  }

  lemma InGroup(gs: Address, zero: nat, next: nat, g: nat, k: nat)
    requires Gap(zero, next) && g < 8 && k < 4
    ensures Rest(gs, zero, next, Number, 4 * g + k)
            == (if k == 0 then HexText(gs[g]) else Digits(gs[g], k)) + After(gs, zero, next, g + 1)
  {
    hide HexText, Digits, After, From;
    assert (4 * g + k) / 4 == g && (4 * g + k) % 4 == k;
    if k == 0 {
      FromGroup(gs, zero, next, g);
    }
  }

  /** Printing a character of a group leaves the rest of it, and what comes after it. */
  lemma {:induction false} NumberStep(gs: Address, zero: nat, next: nat, g: nat, k: nat, m: nat, res: char)
    requires Gap(zero, next) && g < 8 && k < m <= 4
    requires (if k == 0 then HexText(gs[g]) else Digits(gs[g], k)) == [res] + Digits(gs[g], m)
    ensures m == 4 && g == 7 ==> Rest(gs, zero, next, Number, 4 * g + k) == [res]
    ensures m == 4 && g < 7 && g + 1 == zero ==>
              Rest(gs, zero, next, Number, 4 * g + k) == [res] + Rest(gs, zero, next, FirstDoubleColon, 4 * next)
    ensures m == 4 && g < 7 && g + 1 != zero ==>
              Rest(gs, zero, next, Number, 4 * g + k) == [res] + Rest(gs, zero, next, SingleColon, 4 * g + 4)
    ensures m < 4 ==> Rest(gs, zero, next, Number, 4 * g + k) == [res] + Rest(gs, zero, next, Number, 4 * g + m)
  {
    hide HexText, After, Digits, Rest;
    var after := After(gs, zero, next, g + 1);
    InGroup(gs, zero, next, g, k);
    assert Rest(gs, zero, next, Number, 4 * g + k) == [res] + (Digits(gs[g], m) + after);
    if m == 4 {
      AfterGroup(gs, zero, next, g + 1);
      RestAtGroup(gs, zero, next, g + 1);
      NoDigits(gs[g]);
      assert Digits(gs[g], 4) + after == after && [res] + "" == [res];
    } else {
      InGroup(gs, zero, next, g, m);
    }
  }

  lemma RestAtGroup(gs: Address, zero: nat, next: nat, g: nat)
    requires Gap(zero, next) && g <= 8
    ensures g < 8 ==> Rest(gs, zero, next, SingleColon, 4 * g) == ":" + From(gs, zero, next, g)
    ensures zero < 8 ==> Rest(gs, zero, next, FirstDoubleColon, 4 * next) == "::" + From(gs, zero, next, next)
  {
    hide HexText, Digits, After, From;
    assert 4 * g / 4 == g && 4 * next / 4 == next;
  }

  lemma ColonStep(gs: Address, zero: nat, next: nat, i: nat)
    requires Gap(zero, next) && i <= 32 && i % 4 == 0
    ensures i < 32 ==> Rest(gs, zero, next, SingleColon, i) == ":" + Rest(gs, zero, next, Number, i)
    ensures Rest(gs, zero, next, FirstDoubleColon, i) == ":" + Rest(gs, zero, next, SecondDoubleColon, i)
    ensures Rest(gs, zero, next, SecondDoubleColon, i) == ":" + if i < 32 then Rest(gs, zero, next, Number, i) else ""
  {
    hide HexText, Digits;
    assert i < 32 ==> i / 4 < 8;
    assert "::" + From(gs, zero, next, i / 4) == ":" + (":" + From(gs, zero, next, i / 4));
  }

  lemma NextDigits(g: uint16, k: nat)
    requires k < 4
    ensures Digits(g, k) == [HexChar(Nibble(g, k))] + Digits(g, k + 1)
  {
  }

  lemma NoDigits(g: uint16)
    ensures Digits(g, 4) == ""
  {
  }

  // ---------------------------------------------------------------------------
  // The search for the longest run, and the iterator
  // ---------------------------------------------------------------------------

  /** The first longest run among those that end before the last num groups of the first k. */
  ghost predicate Longest(gs: Address, k: nat, curr: nat, first: nat, num: nat) {
    && curr <= k <= 8 && ZeroRun(gs, k - curr, curr) && (curr < k ==> gs[k - curr - 1] != 0)
    && (num > 0 ==> ZeroRun(gs, first, num) && first + num <= k - curr)
    && forall f: nat, n: nat :: ZeroRun(gs, f, n) && 0 < n && f + n <= k ==>
         f >= k - curr || n < num || (n == num && first <= f)
  }

  lemma LongestGrows(gs: Address, k: nat, curr: nat, first: nat, num: nat)
    requires Longest(gs, k, curr, first, num) && k < 8 && gs[k] == 0
    ensures Longest(gs, k + 1, curr + 1, first, num)
  {
    forall f: nat, n: nat | ZeroRun(gs, f, n) && 0 < n && f + n <= k + 1
      ensures f >= k - curr || n < num || (n == num && first <= f)
    {
      assert f + n == k + 1 && curr < k ==> !(f <= k - curr - 1 < f + n);
    }
  }

  lemma LongestEnds(gs: Address, k: nat, curr: nat, first: nat, num: nat)
    requires Longest(gs, k, curr, first, num)
    ensures Longest(gs, k, curr, first, num)
    ensures forall f: nat, n: nat :: ZeroRun(gs, f, n) && 0 < n && f + n <= k ==>
              if curr > num then n < curr || (n == curr && k - curr <= f)
              else n < num || (n == num && first <= f)
  {
    forall f: nat, n: nat | ZeroRun(gs, f, n) && 0 < n && f + n <= k
      ensures if curr > num then n < curr || (n == curr && k - curr <= f) else n < num || (n == num && first <= f)
    {
      if f >= k - curr {
        assert n <= curr;
        assert num > 0 && curr == num ==> first <= k - curr;
      }
    }
  }

  lemma LongestRestarts(gs: Address, k: nat, curr: nat, first: nat, num: nat)
    requires Longest(gs, k, curr, first, num) && k < 8 && gs[k] != 0
    ensures if curr > num then Longest(gs, k + 1, 0, k - curr, curr) else Longest(gs, k + 1, 0, first, num)
  {
    LongestEnds(gs, k, curr, first, num);
    forall f: nat, n: nat | ZeroRun(gs, f, n) && 0 < n && f + n <= k + 1
      ensures f >= k + 1 || f + n <= k
    {
      assert !(f <= k < f + n);
    }
  }

  /** The place and length, in bytes, of the run of zeros to leave out; none if the length is 2 at most. */
  method LongestZeros(addr: array<byte>) returns (maxZeroFirstIdx: byte, maxZeroNum: byte)
    requires addr.Length == 16
    ensures maxZeroFirstIdx % 2 == 0 && maxZeroNum % 2 == 0 && maxZeroFirstIdx + maxZeroNum <= 16
    ensures maxZeroNum > 2 ==> Chosen(GroupsOf(addr[..]), maxZeroFirstIdx / 2, maxZeroNum / 2)
    ensures maxZeroNum <= 2 ==> NothingToShorten(GroupsOf(addr[..]))
  {
    hide Longest, ZeroRun, Chosen, NothingToShorten, GroupsOf, Word;
    ghost var gs := GroupsOf(addr[..]);
    maxZeroFirstIdx, maxZeroNum := 16, 0;
    var currZeroNum: byte, idx: byte := 0, 0;
    ghost var k: nat, curr: nat, first: nat, num: nat := 0, 0, 8, 0;
    NothingYet(gs);
    while idx < 16
      invariant idx == 2 * k <= 16 && currZeroNum == 2 * curr <= idx
      invariant maxZeroFirstIdx == 2 * first && maxZeroNum == 2 * num
      invariant maxZeroFirstIdx + maxZeroNum <= if maxZeroNum == 0 then 16 else idx
      invariant Longest(gs, k, curr, first, num)
    {
      var one, two := addr[idx], addr[idx + 1];
      GroupAt(addr[..], k);
      if one == 0 && two == 0 {
        LongestGrows(gs, k, curr, first, num);
        currZeroNum := currZeroNum + 2;
        curr := curr + 1;
      } else {
        LongestRestarts(gs, k, curr, first, num);
        if currZeroNum > maxZeroNum {
          maxZeroNum := currZeroNum;
          maxZeroFirstIdx := idx - currZeroNum;
          first, num := k - curr, curr;
        }
        currZeroNum := 0;
        curr := 0;
      }
      idx := idx + 2;
      k := k + 1;
    }
    LongestAtEnd(gs, curr, first, num);
    if currZeroNum > maxZeroNum {
      maxZeroNum := currZeroNum;
      maxZeroFirstIdx := 16 - currZeroNum;
    }
  }

  lemma GroupAt(a: seq<byte>, k: nat)
    requires |a| == 16 && k < 8
    ensures GroupsOf(a)[k] == 0 <==> a[2 * k] == 0 && a[2 * k + 1] == 0
  {
  }

  lemma NothingYet(gs: Address)
    ensures Longest(gs, 0, 0, 8, 0)
  {
  }

  lemma LongestAtEnd(gs: Address, curr: nat, first: nat, num: nat)
    requires Longest(gs, 8, curr, first, num)
    ensures curr <= 8
    ensures var f, n := if curr > num then 8 - curr else first, if curr > num then curr else num;
            if n >= 2 then Chosen(gs, f, n) else NothingToShorten(gs)
  {
    LongestEnds(gs, 8, curr, first, num);
  }

  class OutIter {
    const addr: array<byte>
    var nextAction: Action
    var nextIdx: byte
    var firstZeroIdx: byte
    var nextNonzeroIdx: byte

    predicate Valid()
      reads this, addr
    {
      && addr.Length == 16 && firstZeroIdx % 4 == 0 && (firstZeroIdx < 32 ==> nextNonzeroIdx % 4 == 0)
      && Reachable(firstZeroIdx / 4, nextNonzeroIdx / 4, nextAction, nextIdx)
    }

    function Remaining(): string
      reads this, addr
      requires Valid()
    {
      Rest(GroupsOf(addr[..]), firstZeroIdx / 4, nextNonzeroIdx / 4, nextAction, nextIdx)
    }

    /** What is to be printed is the canonical text of the address. */
    constructor (addr: array<byte>)
      requires addr.Length == 16
      ensures this.addr == addr && Valid() && Canonical(GroupsOf(addr[..]), Remaining())
    {
      hide Canonical, Chosen, NothingToShorten, GroupsOf, Rest;
      var maxZeroFirstIdx, maxZeroNum := LongestZeros(addr);
      ghost var first: nat, num: nat := maxZeroFirstIdx / 2, maxZeroNum / 2;
      ghost var gs := GroupsOf(addr[..]);
      assert maxZeroFirstIdx == 2 * first && maxZeroNum == 2 * num;
      this.addr := addr;
      nextAction := Number;
      nextIdx := 0;
      if maxZeroNum > 2 {
        StartsShortened(gs, first, num);
        maxZeroNum := (maxZeroFirstIdx + maxZeroNum) * 2;
        maxZeroFirstIdx := maxZeroFirstIdx * 2;
        firstZeroIdx := maxZeroFirstIdx;
        nextNonzeroIdx := maxZeroNum;
        if maxZeroFirstIdx == 0 {
          nextAction := FirstDoubleColon;
          nextIdx := maxZeroNum;
        }
      } else {
        StartsJoined(gs);
        firstZeroIdx := 32;
        nextNonzeroIdx := 33;
      }
    }

    /** The next character of a number. */
    method WriteDigit() returns (res: char)
      requires Valid() && nextAction.Number?
      modifies this
      ensures Valid() && [res] + Remaining() == old(Remaining())
    {
      hide HexText, Digits, GroupsOf, Rest;
      ghost var gs, zero: nat, next: nat := GroupsOf(addr[..]), firstZeroIdx / 4, nextNonzeroIdx / 4;
      ghost var g: nat, k: nat := nextIdx / 4, nextIdx % 4;
      var idx;
      res, idx := NextDigit(addr, nextIdx);
      assert firstZeroIdx == 4 * zero && (zero < 8 ==> nextNonzeroIdx == 4 * next);
      NumberStep(gs, zero, next, g, k, idx - 4 * g, res);
      nextIdx := idx;
      if idx >= 32 {
        nextAction := Stop;
        StopStep(gs, zero, next, idx);
      } else if idx == firstZeroIdx {
        nextIdx := nextNonzeroIdx;
        nextAction := FirstDoubleColon;
      } else if idx % 4 == 0 {
        nextAction := SingleColon;
      }
    }

    /** The next character of the text, and the end of string from its end on. */
    method ContinueWriting() returns (res: char)
      requires Valid()
      modifies this
      ensures Valid()
      ensures old(Remaining()) != "" ==> [res] + Remaining() == old(Remaining())
      ensures old(Remaining()) == "" ==> res == '\0' && Remaining() == ""
    {
      hide HexText, Digits, GroupsOf, Rest;
      ghost var gs, zero: nat, next: nat := GroupsOf(addr[..]), firstZeroIdx / 4, nextNonzeroIdx / 4;
      match nextAction {
        case Number =>
          res := WriteDigit();
        case SingleColon =>
          ColonStep(gs, zero, next, nextIdx);
          nextAction := Number;
          res := ':';
        case FirstDoubleColon =>
          ColonStep(gs, zero, next, nextIdx);
          nextAction := SecondDoubleColon;
          res := ':';
        case SecondDoubleColon =>
          ColonStep(gs, zero, next, nextIdx);
          StopStep(gs, zero, next, nextIdx);
          nextAction := if nextIdx >= 32 then Stop else Number;
          res := ':';
        case Stop =>
          StopStep(gs, zero, next, nextIdx);
          res := '\0';
      }
    }
  }

  lemma StopStep(gs: Address, zero: nat, next: nat, i: nat)
    requires Gap(zero, next) && i <= 32
    ensures Rest(gs, zero, next, Stop, i) == ""
  {
  }

  lemma {:induction false} DigitAt(a: seq<byte>, g: nat, k: nat)
    requires |a| == 16 && g < 8 && k < 4
    ensures Digit(a, 4 * g + k) == HexChar(Nibble(GroupsOf(a)[g], k))
    ensures Digit(a, 4 * g + k) == '0' <==> Nibble(GroupsOf(a)[g], k) == 0
    ensures (4 * g + k + 1) % 4 == 0 <==> k == 3
  {
    hide GroupsOf, Nibble, HexChar, Digit;
    var i := 4 * g + k;
    assert i / 4 == g && i % 4 == k;
    DigitOfGroup(a, i);
    HexCharOfZero(Nibble(GroupsOf(a)[g], k));
  }

  /** The digit at idx, or at the start of a group its first digit to be printed. */
  method NextDigit(addr: array<byte>, idx: byte) returns (res: char, nextIdx: byte)
    requires addr.Length == 16 && idx < 32
    ensures idx < nextIdx <= 4 * (idx / 4) + 4
    ensures var g := GroupsOf(addr[..])[idx / 4];
            (if idx % 4 == 0 then HexText(g) else Digits(g, idx % 4)) == [res] + Digits(g, nextIdx - 4 * (idx / 4))
  {
    hide HexText, HexChar, GroupsOf, Digits, Digit, Nibble;
    ghost var n: nat, k: nat := idx / 4, idx % 4;
    ghost var g := GroupsOf(addr[..])[n];
    nextIdx := idx;
    res := Digit(addr[..], nextIdx);
    DigitAt(addr[..], n, k);
    nextIdx := nextIdx + 1;
    if nextIdx % 4 == 1 && res == '0' {
      res := Digit(addr[..], nextIdx);
      DigitAt(addr[..], n, 1);
      nextIdx := nextIdx + 1;
      k := 1;
      while res == '0' && nextIdx % 4 != 0
        invariant 1 <= k < 4 && nextIdx == 4 * n + k + 1 && (nextIdx % 4 == 0 <==> k == 3)
        invariant res == HexChar(Nibble(g, k)) && (res == '0' <==> Nibble(g, k) == 0)
        invariant forall j: nat :: j < k ==> Nibble(g, j) == 0
        decreases 4 - k
      {
        k := k + 1;
        res := Digit(addr[..], nextIdx);
        DigitAt(addr[..], n, k);
        nextIdx := nextIdx + 1;
      }
    }
    NextDigits(g, k);
    if idx % 4 == 0 {
      HexTextIsDigits(g, k);
    }
  }

  lemma {:induction false} StartsJoined(gs: Address)
    requires NothingToShorten(gs)
    ensures Canonical(gs, Rest(gs, 8, 8, Number, 0))
  {
    FromIsJoined(gs, 8, 8, 0);
    assert gs[0..] == gs;
  }

  lemma StartsShortened(gs: Address, first: nat, num: nat)
    requires Chosen(gs, first, num)
    ensures Gap(first, first + num)
    ensures first == 0 ==> Canonical(gs, Rest(gs, first, first + num, FirstDoubleColon, 4 * (first + num)))
    ensures first > 0 ==> Canonical(gs, Rest(gs, first, first + num, Number, 0))
  {
    hide From, Joined, HexText;
    var next := first + num;
    FromIsJoined(gs, first, next, next);
    if first > 0 {
      FromIsShortened(gs, first, next, 0);
      assert gs[0..first] == gs[..first];
      assert From(gs, first, next, 0) == Shortened(gs, first, num);
    } else {
      NothingJoined();
      assert gs[..0] == [] && 4 * next / 4 == next;
      assert "" + "::" == "::";
      assert "::" + From(gs, 0, next, next) == Shortened(gs, first, num);
    }
  }

  // ---------------------------------------------------------------------------
  // The examples of RFC 5952
  // ---------------------------------------------------------------------------

  lemma {:induction false} JoinedIs(gs: seq<uint16>, first: string, rest: string, text: string)
    requires |gs| > 1 && HexText(gs[0]) == first && Joined(gs[1..]) == rest && text == first + ":" + rest
    ensures Joined(gs) == text
  {
    hide HexText;
  }

  lemma ShortTexts()
    ensures HexText(0) == "0" && HexText(1) == "1"
    ensures HexText(0x2001) == "2001" && HexText(0xdb8) == "db8"
  {
    assert HexText(0x200) == HexText(0x20) + "0" && HexText(0x20) == "20";
    assert HexText(0xdb) == "db";
  }

  /** Section 4.2.3: of two runs of zeros the longer one is left out, and of two of the same length the first. */
  lemma {:induction false} Rfc5952Examples()
    ensures Canonical([0x2001, 0, 0, 1, 0, 0, 0, 1], "2001:0:0:1::1")
    ensures Canonical([0x2001, 0xdb8, 0, 0, 1, 0, 0, 1], "2001:db8::1:0:0:1")
  {
    LongerRunGoes();
    FirstRunGoes();
  }

  lemma {:induction false} TailIs(gs: seq<uint16>, k: nat, first: string, rest: string, text: string)
    requires k + 1 < |gs| && HexText(gs[k]) == first && Joined(gs[k + 1..]) == rest && text == first + ":" + rest
    ensures Joined(gs[k..]) == text
  {
    hide HexText, Joined;
    assert gs[k..][1..] == gs[k + 1..];
    JoinedIs(gs[k..], first, rest, text);
  }

  lemma JoinedOfOne(g: uint16)
    ensures Joined([g]) == HexText(g)
  {
    hide HexText;
  }

  lemma RunIs(gs: Address, f: nat, n: nat)
    requires f + n <= 8 && forall i :: f <= i < f + n ==> gs[i] == 0
    ensures ZeroRun(gs, f, n)
  {
  }

  lemma RunStarts(gs: Address, f: nat, n: nat)
    requires ZeroRun(gs, f, n)
    ensures f + n <= 8
    ensures n > 0 ==> gs[f] == 0
    ensures n > 1 ==> gs[f + 1] == 0
    ensures n > 2 ==> gs[f + 2] == 0
    ensures n > 3 ==> gs[f + 3] == 0
  {
  }

  lemma {:induction false} LongerRunGoes()
    ensures Canonical([0x2001, 0, 0, 1, 0, 0, 0, 1], "2001:0:0:1::1")
  {
    hide HexText, Joined, ZeroRun;
    var gs: Address := [0x2001, 0, 0, 1, 0, 0, 0, 1];
    ShortTexts();
    JoinedOfOne(1);
    var left := [0x2001, 0, 0, 1];
    assert left[3..] == [1] && left[0..] == left;
    TailIs(left, 2, "0", "1", "0:1");
    TailIs(left, 1, "0", "0:1", "0:0:1");
    TailIs(left, 0, "2001", "0:0:1", "2001:0:0:1");
    assert gs[..4] == left;
    assert gs[7..] == [1];
    forall f: nat, n: nat | ZeroRun(gs, f, n)
      ensures n < 3 || (n == 3 && 4 <= f)
    {
      RunStarts(gs, f, n);
    }
    assert ZeroRun(gs, 4, 3) by {
      RunIs(gs, 4, 3);
    }
    assert Chosen(gs, 4, 3);
    assert "2001:0:0:1" + "::" + "1" == "2001:0:0:1::1";
  }

  lemma {:induction false} FirstRunGoes()
    ensures Canonical([0x2001, 0xdb8, 0, 0, 1, 0, 0, 1], "2001:db8::1:0:0:1")
  {
    hide HexText, Joined, ZeroRun;
    var gs: Address := [0x2001, 0xdb8, 0, 0, 1, 0, 0, 1];
    ShortTexts();
    JoinedOfOne(1);
    JoinedOfOne(0xdb8);
    var left, right := [0x2001, 0xdb8], [1, 0, 0, 1];
    assert left[1..] == [0xdb8] && left[0..] == left;
    TailIs(left, 0, "2001", "db8", "2001:db8");
    assert right[3..] == [1] && right[0..] == right;
    TailIs(right, 2, "0", "1", "0:1");
    TailIs(right, 1, "0", "0:1", "0:0:1");
    TailIs(right, 0, "1", "0:0:1", "1:0:0:1");
    assert gs[..2] == left;
    assert gs[4..] == right;
    forall f: nat, n: nat | ZeroRun(gs, f, n)
      ensures n < 2 || (n == 2 && 2 <= f)
    {
      RunStarts(gs, f, n);
    }
    assert ZeroRun(gs, 2, 2) by {
      RunIs(gs, 2, 2);
    }
    assert Chosen(gs, 2, 2);
    assert "2001:db8" + "::" + "1:0:0:1" == "2001:db8::1:0:0:1";
  }
}
