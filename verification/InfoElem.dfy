/** Beacon parsing: the 802.11 information elements, and the cipher and
    authentication suites of their RSN and WPA elements. */
module InfoElem {
  import opened Bytes
  import opened Trailer

  const ELEMID_SSID: uint8 := 0
  const ELEMID_RSN: uint8 := 48
  const ELEMID_VENDOR: uint8 := 221
  const VERSION: uint16 := 1
  const SSID_MAX: nat := 32
  const BEACON_PERIOD_INDEX: nat := 8
  const CAPS_INDEX: nat := 10
  const IE_INDEX: nat := 12

  const WPA_OUI: seq<uint8> := [0x00, 0x50, 0xF2]
  const RSN_OUI: seq<uint8> := [0x00, 0x0F, 0xAC]
  const WPA_OUI_TYPE: uint8 := 1

  const NONE_CRYPT: bv8 := 0x01
  const WEP_CRYPT: bv8 := 0x02
  const TKIP_CRYPT: bv8 := 0x04
  const AES_CRYPT: bv8 := 0x08
  const NONE_AUTH: bv8 := 0x01
  const WPA_AUTH: bv8 := 0x02
  const WPA2_AUTH: bv8 := 0x04
  const WPA_PSK_AUTH: bv8 := 0x08
  const WPA2_PSK_AUTH: bv8 := 0x10

  /** A suite selector: an organisation's three bytes and a type. */
  type Suite = s: seq<uint8> | |s| == 4 witness [0, 0, 0, 0]

  /** A list of suites; more would not fit into an element. */
  type Suites = ss: seq<Suite> | |ss| < 0x100 witness []

  datatype Kind = Rsn | Wpa
  datatype List = Ciphers | Auths

  function Oui(kind: Kind): seq<uint8>
  {
    if kind == Rsn then RSN_OUI else WPA_OUI
  }

  function CipherOfType(t: uint8): bv8
  {
    match t
    case 0 => NONE_CRYPT
    case 1 => WEP_CRYPT
    case 2 => TKIP_CRYPT
    case 4 => AES_CRYPT
    case 5 => WEP_CRYPT
    case _ => 0
  }

  function AuthOfType(kind: Kind, t: uint8): bv8
  {
    match t
    case 0 => NONE_AUTH
    case 1 => if kind == Rsn then WPA2_AUTH else WPA_AUTH
    case 2 => if kind == Rsn then WPA2_PSK_AUTH else WPA_PSK_AUTH
    case _ => 0
  }

  /** The bit a suite stands for. An unknown cipher counts as none in an RSN
      element, and does not count in a WPA element. */
  function Flag(kind: Kind, list: List, s: Suite): bv8
  {
    var known := s[..3] == Oui(kind);
    match list
    case Auths => if known then AuthOfType(kind, s[3]) else 0
    case Ciphers =>
      var flag := if known then CipherOfType(s[3]) else 0;
      if kind == Rsn && flag == 0 then NONE_CRYPT else flag
  }

  /** The word of a selector: the macros WPA_SEL and RSN_SEL. */
  function Sel(oui: nat, t: uint8): nat
  {
    0x100_0000 * t as int + oui
  }

  /** The selector functions compare whole little-endian words. */
  method SelectorParse(kind: Kind, list: List, s: Suite) returns (flag: bv8)
    ensures flag == Flag(kind, list, s)
    ensures if list == Ciphers then CipherBits(kind, [s], flag) else AuthBits(kind, [s], flag)
  {
    CipherOfSuite(kind, s);
    AuthOfSuite(kind, s);
    hide CipherBits, AuthBits;
    var w := Read32(s);
    var oui := if kind == Rsn then 0xAC0F00 else 0xF25000;
    WordNamesSuite(s, Oui(kind), oui);
    if list == Ciphers {
      if w == Sel(oui, 0) { return NONE_CRYPT; }
      if w == Sel(oui, 1) { return WEP_CRYPT; }
      if w == Sel(oui, 5) { return WEP_CRYPT; }
      if w == Sel(oui, 2) { return TKIP_CRYPT; }
      if w == Sel(oui, 4) { return AES_CRYPT; }
      return if kind == Rsn then NONE_CRYPT else 0;
    } else {
      if w == Sel(oui, 1) { return if kind == Rsn then WPA2_AUTH else WPA_AUTH; }
      if w == Sel(oui, 2) { return if kind == Rsn then WPA2_PSK_AUTH else WPA_PSK_AUTH; }
      if w == Sel(oui, 0) { return NONE_AUTH; }
      return 0;
    }
  }

  /** A suite's word is a selector's exactly when its bytes are. */
  lemma WordNamesSuite(s: Suite, oui: seq<uint8>, word: nat)
    requires |oui| == 3 && word == oui[0] as int + 0x100 * oui[1] as int + 0x1_0000 * oui[2] as int
    ensures forall t: uint8 :: Read32(s) == Sel(word, t) <==> s[..3] == oui && s[3] == t
  {
    forall t: uint8
      ensures Read32(s) == Sel(word, t) <==> s[..3] == oui && s[3] == t
    {
      var named := oui + [t];
      assert Read32(named) == Sel(word, t);
      if Read32(s) == Read32(named) {
        Read32Injective(s, named);
        assert s[..4] == s && named[..4] == named;
      }
      if s[..3] == oui && s[3] == t {
        assert s == named;
      }
    }
  }

  /** All suites of a list, or-ed together. */
  function Flags(kind: Kind, list: List, ss: seq<Suite>): bv8
  {
    if ss == [] then 0 else Flags(kind, list, ss[..|ss| - 1]) | Flag(kind, list, ss[|ss| - 1])
  }

  // ----- what the masks say about the suites' bytes -----

  /** Suite `t` of the element's own organisation is listed. */
  predicate Lists(kind: Kind, ss: seq<Suite>, t: uint8)
  {
    (if kind == Rsn then [0x00, 0x0F, 0xAC, t] else [0x00, 0x50, 0xF2, t]) in ss
  }

  /** None of the ciphers that both kinds know. */
  predicate UnknownCipher(kind: Kind, s: Suite)
  {
    s[..3] != Oui(kind) || s[3] == 3 || s[3] > 5
  }

  predicate Has(mask: bv8, bits: bv8) { mask & bits != 0 }

  /** A cipher mask, bit by bit: none, WEP with either key length, TKIP, CCMP. An
      RSN element counts an unknown cipher as none. */
  ghost predicate CipherBits(kind: Kind, ss: seq<Suite>, mask: bv8)
  {
    && (Has(mask, 0x01) <==> Lists(kind, ss, 0) || (kind == Rsn && exists s :: s in ss && UnknownCipher(kind, s)))
    && (Has(mask, 0x02) <==> Lists(kind, ss, 1) || Lists(kind, ss, 5))
    && (Has(mask, 0x04) <==> Lists(kind, ss, 2))
    && (Has(mask, 0x08) <==> Lists(kind, ss, 4))
    && !Has(mask, 0xF0)
  }

  /** An authentication mask, bit by bit: none, 802.1X, and the pre-shared key. */
  ghost predicate AuthBits(kind: Kind, ss: seq<Suite>, mask: bv8)
  {
    && (Has(mask, 0x01) <==> Lists(kind, ss, 0))
    && (Has(mask, if kind == Rsn then 0x04 else 0x02) <==> Lists(kind, ss, 1))
    && (Has(mask, if kind == Rsn then 0x10 else 0x08) <==> Lists(kind, ss, 2))
    && !Has(mask, if kind == Rsn then 0xEA else 0xF4)
  }

  /** Both pin the mask down. */
  lemma BitsPinMask(kind: Kind, ss: seq<Suite>, m: bv8, n: bv8)
    ensures CipherBits(kind, ss, m) && CipherBits(kind, ss, n) ==> m == n
    ensures AuthBits(kind, ss, m) && AuthBits(kind, ss, n) ==> m == n
  {
  }

  lemma SuiteBytes4(s: Suite)
    ensures s == [s[0], s[1], s[2], s[3]] && s[..3] == [s[0], s[1], s[2]]
  {
  }

  lemma CipherOfSuite(kind: Kind, s: Suite)
    ensures CipherBits(kind, [s], Flag(kind, Ciphers, s))
  {
    SuiteBytes4(s);
    assert s in [s];
    assert forall t: uint8 :: Lists(kind, [s], t) <==> s[..3] == Oui(kind) && s[3] == t;
  }

  lemma AuthOfSuite(kind: Kind, s: Suite)
    ensures AuthBits(kind, [s], Flag(kind, Auths, s))
  {
    SuiteBytes4(s);
    assert forall t: uint8 :: Lists(kind, [s], t) <==> s[..3] == Oui(kind) && s[3] == t;
  }

  /** A suite more: its bits are added. */
  lemma CipherBitsOfMore(kind: Kind, ss: seq<Suite>, s: Suite, m: bv8, n: bv8)
    requires CipherBits(kind, ss, m) && CipherBits(kind, [s], n)
    ensures CipherBits(kind, ss + [s], m | n)
  {
    hide Lists, UnknownCipher, Has;
    ListsMore(kind, ss, s);
    OrHas(m, n, 0x01);
    OrHas(m, n, 0x02);
    OrHas(m, n, 0x04);
    OrHas(m, n, 0x08);
    OrHas(m, n, 0xF0);
    assert forall x :: x in ss + [s] <==> x in ss || x in [s];
  }

  lemma AuthBitsOfMore(kind: Kind, ss: seq<Suite>, s: Suite, m: bv8, n: bv8)
    requires AuthBits(kind, ss, m) && AuthBits(kind, [s], n)
    ensures AuthBits(kind, ss + [s], m | n)
  {
    hide Lists, Has;
    ListsMore(kind, ss, s);
    OrHas(m, n, 0x01);
    OrHas(m, n, if kind == Rsn then 0x04 else 0x02);
    OrHas(m, n, if kind == Rsn then 0x10 else 0x08);
    OrHas(m, n, if kind == Rsn then 0xEA else 0xF4);
  }

  lemma OrHas(m: bv8, n: bv8, bits: bv8)
    ensures Has(m | n, bits) <==> Has(m, bits) || Has(n, bits)
  {
  }

  lemma ListsMore(kind: Kind, ss: seq<Suite>, s: Suite)
    ensures forall t :: Lists(kind, ss + [s], t) <==> Lists(kind, ss, t) || Lists(kind, [s], t)
  {
  }

  lemma {:induction false} FlagsTell(kind: Kind, ss: seq<Suite>)
    ensures CipherBits(kind, ss, Flags(kind, Ciphers, ss)) && AuthBits(kind, ss, Flags(kind, Auths, ss))
  {
    if ss == [] {
    } else {
      var init, last := ss[..|ss| - 1], ss[|ss| - 1];
      FlagsTell(kind, init);
      CipherOfSuite(kind, last);
      AuthOfSuite(kind, last);
      CipherBitsOfMore(kind, init, last, Flags(kind, Ciphers, init), Flag(kind, Ciphers, last));
      AuthBitsOfMore(kind, init, last, Flags(kind, Auths, init), Flag(kind, Auths, last));
      assert ss == init + [last];
    }
  }

  // ----- security elements -----

  /** What follows the version: a group suite, lists of pairwise and
      authentication suites, and more. Each part needs the ones before it. */
  datatype Security = Security(group: Option<Suite>, ciphers: Option<Suites>, auths: Option<Suites>, rest: seq<uint8>)

  /** Each part is there only with those before it. */
  predicate WellFormed(s: Security)
  {
    && (s.ciphers.Some? ==> s.group.Some?)
    && (s.auths.Some? ==> s.ciphers.Some?)
    && (s.rest != [] ==> s.auths.Some?)
  }

  function SuiteBytes(ss: seq<Suite>): (b: seq<uint8>)
    ensures |b| == 4 * |ss|
  {
    if ss == [] then [] else ss[0] + SuiteBytes(ss[1..])
  }

  function CountBytes(l: Option<Suites>): (b: seq<uint8>)
    ensures |b| == if l.Some? then 2 else 0
  {
    if l.None? then [] else Bytes16(|l.value|)
  }

  function ListedBytes(l: Option<Suites>): (b: seq<uint8>)
    ensures |b| == if l.Some? then 4 * |l.value| else 0
  {
    if l.None? then [] else SuiteBytes(l.value)
  }

  function GroupBytes(g: Option<Suite>): (b: seq<uint8>)
    ensures |b| == if g.Some? then 4 else 0
  {
    if g.None? then [] else g.value
  }

  function SecurityBytes(s: Security): seq<uint8>
  {
    GroupBytes(s.group)
    + (CountBytes(s.ciphers) + (ListedBytes(s.ciphers)
    + (CountBytes(s.auths) + (ListedBytes(s.auths) + s.rest))))
  }

  /** The masks of an element: the suites listed, or the code's defaults. A count of
      zero that ends the element is no list. */
  function CipherMask(kind: Kind, s: Security): bv8
  {
    if s.ciphers.Some? && (s.ciphers.value != [] || s.auths.Some?) then Flags(kind, Ciphers, s.ciphers.value)
    else if kind == Rsn then AES_CRYPT else TKIP_CRYPT
  }

  function AuthMask(kind: Kind, s: Security): bv8
  {
    if s.auths.Some? && (s.auths.value != [] || s.rest != []) then Flags(kind, Auths, s.auths.value)
    else if kind == Rsn then WPA2_AUTH else WPA_AUTH
  }

  /** The masks say what the element lists, or are the defaults: CCMP or TKIP, and 802.1X.
      A count of zero that ends the element is no list. */
  ghost predicate SecurityTold(kind: Kind, s: Security, cipher: bv8, auth: bv8)
  {
    && (if s.ciphers.Some? && (s.ciphers.value != [] || s.auths.Some?) then CipherBits(kind, s.ciphers.value, cipher)
        else cipher == if kind == Rsn then 0x08 else 0x04)
    && (if s.auths.Some? && (s.auths.value != [] || s.rest != []) then AuthBits(kind, s.auths.value, auth)
        else auth == if kind == Rsn then 0x04 else 0x02)
  }

  lemma MasksTell(kind: Kind, s: Security)
    ensures SecurityTold(kind, s, CipherMask(kind, s), AuthMask(kind, s))
  {
    hide CipherBits, AuthBits;
    if s.ciphers.Some? {
      FlagsTell(kind, s.ciphers.value);
    }
    if s.auths.Some? {
      FlagsTell(kind, s.auths.value);
    }
  }

  /** The bytes `x` stand at `pos`. */
  predicate At(buf: seq<uint8>, pos: nat, x: seq<uint8>)
  {
    pos + |x| <= |buf| && buf[pos..pos + |x|] == x
  }

  lemma AtParts(buf: seq<uint8>, pos: nat, x: seq<uint8>, y: seq<uint8>)
    requires At(buf, pos, x + y)
    ensures At(buf, pos, x) && At(buf, pos + |x|, y)
  {
    var w := buf[pos..pos + |x| + |y|];
    assert w == x + y;
    assert buf[pos..pos + |x|] == w[..|x|];
    assert buf[pos + |x|..pos + |x| + |y|] == w[|x|..];
  }

  /** One list of suites: the count, then a loop over the suites while the element
      has bytes left. */
  method ParseList(kind: Kind, list: List, buf: seq<uint8>, start: nat, startLen: uint8, ghost ss: Suites)
    returns (mask: bv8, pos: nat, ieLen: uint8)
    requires At(buf, start, Bytes16(|ss|)) && At(buf, start + 2, SuiteBytes(ss)) && startLen as int >= 2 + 4 * |ss|
    ensures mask == Flags(kind, list, ss)
    ensures pos == start + 2 + 4 * |ss| && ieLen as int == startLen as int - 2 - 4 * |ss|
  {
    hide Flags, Flag, SuiteBytes, At, Read16;
    CountReads(buf, start, |ss|);
    NoFlags(kind, list, ss[..0]);
    var cnt := Read16(buf[start], buf[start + 1]);
    mask, pos, ieLen := 0, start + 2, startLen - 2;
    var i := 0;
    assert ss[0..] == ss;
    while i < cnt && ieLen > 0
      invariant 0 <= i <= |ss| == cnt && pos == start + 2 + 4 * i && ieLen as int == startLen as int - 2 - 4 * i
      invariant At(buf, pos, SuiteBytes(ss[i..]))
      invariant mask == Flags(kind, list, ss[..i])
    {
      SuiteStands(buf, pos, ss, i);
      FlagsStep(kind, list, ss, i);
      var flag := SelectorParse(kind, list, buf[pos..pos + 4]);
      mask := mask | flag;
      ieLen := Wrap8(ieLen as int - 4);
      pos := pos + 4;
      i := i + 1;
    }
    assert ss[..i] == ss;
  }

  lemma SuiteStands(buf: seq<uint8>, pos: nat, ss: seq<Suite>, i: nat)
    requires i < |ss| && At(buf, pos, SuiteBytes(ss[i..]))
    ensures pos + 4 <= |buf| && buf[pos..pos + 4] == ss[i] && At(buf, pos + 4, SuiteBytes(ss[i + 1..]))
  {
    assert ss[i..][1..] == ss[i + 1..];
    AtParts(buf, pos, ss[i], SuiteBytes(ss[i + 1..]));
  }

  lemma NoFlags(kind: Kind, list: List, ss: seq<Suite>)
    requires ss == []
    ensures Flags(kind, list, ss) == 0
  {
  }

  lemma FlagsStep(kind: Kind, list: List, ss: seq<Suite>, i: nat)
    requires i < |ss|
    ensures Flags(kind, list, ss[..i + 1]) == Flags(kind, list, ss[..i]) | Flag(kind, list, ss[i])
  {
    assert ss[..i + 1][..i] == ss[..i];
  }

  lemma CountReads(buf: seq<uint8>, pos: nat, n: uint16)
    requires At(buf, pos, Bytes16(n))
    ensures pos + 2 <= |buf|
    ensures Read16(buf[pos], buf[pos + 1]) == n
  {
    var w := buf[pos..pos + 2];
    assert w[0] == n % 0x100 && w[1] == n / 0x100;
  }

  /** security_ie_parse. */
  method SecurityIeParse(kind: Kind, buf: seq<uint8>, start: nat, startLen: uint8, ghost s: Security) returns (cipher: bv8, auth: bv8)
    requires WellFormed(s) && startLen as int == |SecurityBytes(s)| && At(buf, start, SecurityBytes(s))
    ensures cipher == CipherMask(kind, s) && auth == AuthMask(kind, s)
    ensures SecurityTold(kind, s, cipher, auth)
  {
    hide Flags, Flag, SuiteBytes, At, Read16, SecurityTold;
    MasksTell(kind, s);
    PartsStand(buf, start, s);
    var pos, ieLen := start, startLen;
    if ieLen >= 4 {
      ieLen := ieLen - 4;
      pos := pos + 4;
    }
    if ieLen > 2 {
      cipher, pos, ieLen := ParseList(kind, Ciphers, buf, pos, ieLen, s.ciphers.value);
    } else {
      cipher := if kind == Rsn then AES_CRYPT else TKIP_CRYPT;
    }
    if ieLen > 2 {
      auth, pos, ieLen := ParseList(kind, Auths, buf, pos, ieLen, s.auths.value);
    } else {
      auth := if kind == Rsn then WPA2_AUTH else WPA_AUTH;
    }
  }

  lemma PartsStand(buf: seq<uint8>, pos: nat, s: Security)
    requires At(buf, pos, SecurityBytes(s))
    ensures var g := pos + |GroupBytes(s.group)|;
            && At(buf, g, CountBytes(s.ciphers))
            && At(buf, g + |CountBytes(s.ciphers)|, ListedBytes(s.ciphers))
            && var c := g + |CountBytes(s.ciphers)| + |ListedBytes(s.ciphers)|;
               && At(buf, c, CountBytes(s.auths))
               && At(buf, c + |CountBytes(s.auths)|, ListedBytes(s.auths))
  {
    var g, n1, l1, n2, l2 := GroupBytes(s.group), CountBytes(s.ciphers), ListedBytes(s.ciphers), CountBytes(s.auths), ListedBytes(s.auths);
    assert SecurityBytes(s) == g + (n1 + (l1 + (n2 + (l2 + s.rest))));
    hide *;
    AtParts(buf, pos, g, n1 + (l1 + (n2 + (l2 + s.rest))));
    AtParts(buf, pos + |g|, n1, l1 + (n2 + (l2 + s.rest)));
    AtParts(buf, pos + |g| + |n1|, l1, n2 + (l2 + s.rest));
    AtParts(buf, pos + |g| + |n1| + |l1|, n2, l2 + s.rest);
    AtParts(buf, pos + |g| + |n1| + |l1| + |n2|, l2, s.rest);
  }

  // ----- elements -----

  const NO_SUMMARY: Summary := Summary([], 0, 0, 0, 0)

  /** One element of a beacon, by what the parser makes of it. Elements have the
      identifier, length and body of trailer records. */
  datatype Element =
    | Ssid(name: seq<uint8>)
    | SecurityElement(kind: Kind, security: Security)
    | Ignored(element: Record)

  /** The bytes in front of the version. */
  function Preamble(kind: Kind): seq<uint8>
  {
    if kind == Rsn then [] else WPA_OUI + [WPA_OUI_TYPE]
  }

  function ToRecord(e: Element): Record
  {
    match e
    case Ssid(name) => Record(ELEMID_SSID, name)
    case SecurityElement(kind, s) =>
      Record(if kind == Rsn then ELEMID_RSN else ELEMID_VENDOR, Preamble(kind) + (Bytes16(VERSION) + SecurityBytes(s)))
    case Ignored(r) => r
  }

  predicate IsWpa(body: seq<uint8>)
  {
    |body| > 6 && body[..4] == Preamble(Wpa)
  }

  /** What the parser passes over: other elements, and other versions. */
  predicate PassedOver(r: Record)
  {
    && r.id != ELEMID_SSID
    && (r.id == ELEMID_RSN ==> |r.body| >= 2 && Read16(r.body[0], r.body[1]) != VERSION)
    && (r.id == ELEMID_VENDOR && IsWpa(r.body) ==> Read16(r.body[4], r.body[5]) != VERSION)
  }

  predicate ElementOk(e: Element)
  {
    && |ToRecord(e).body| < 0x100
    && match e
       case Ssid(_) => true
       case SecurityElement(_, s) => WellFormed(s)
       case Ignored(r) => PassedOver(r)
  }

  datatype Summary = Summary(ssid: seq<uint8>, rsnCipher: bv8, rsnAuth: bv8, wpaCipher: bv8, wpaAuth: bv8)

  /** What one element adds. A WPA element that ends after its version is passed
      over, while such an RSN element sets the defaults. */
  function Applied(m: Summary, e: Element): Summary
  {
    match e
    case Ssid(name) => if |name| <= SSID_MAX then m.(ssid := name) else m
    case SecurityElement(Rsn, s) => m.(rsnCipher := CipherMask(Rsn, s), rsnAuth := AuthMask(Rsn, s))
    case SecurityElement(Wpa, s) =>
      if SecurityBytes(s) == [] then m else m.(wpaCipher := CipherMask(Wpa, s), wpaAuth := AuthMask(Wpa, s))
    case Ignored(_) => m
  }

  function Summarized(m: Summary, es: seq<Element>): Summary
    decreases |es|
  {
    if es == [] then m else Summarized(Applied(m, es[0]), es[1..])
  }

  /** The element sets the masks of its kind. */
  predicate Sets(e: Element, kind: Kind)
  {
    e.SecurityElement? && e.kind == kind && (kind == Wpa ==> SecurityBytes(e.security) != [])
  }

  predicate Names(e: Element)
  {
    e.Ssid? && |e.name| <= SSID_MAX
  }

  /** The last element of a kind says what the summary holds for it, and so does the last
      name that is not too long; without one, the summary is as it was. */
  ghost predicate SummaryTold(before: Summary, es: seq<Element>, m: Summary)
  {
    KindTold(before, es, m, Rsn) && KindTold(before, es, m, Wpa) && NameTold(before, es, m)
  }

  ghost predicate NameTold(before: Summary, es: seq<Element>, m: Summary)
  {
    && (forall i :: 0 <= i < |es| && Names(es[i]) && (forall j :: i < j < |es| ==> !Names(es[j])) ==> m.ssid == es[i].name)
    && ((forall i :: 0 <= i < |es| ==> !Names(es[i])) ==> m.ssid == before.ssid)
  }

  ghost predicate KindTold(before: Summary, es: seq<Element>, m: Summary, kind: Kind)
  {
    && (forall i :: 0 <= i < |es| && Sets(es[i], kind) && (forall j :: i < j < |es| ==> !Sets(es[j], kind)) ==>
                      SecurityTold(kind, es[i].security, CipherIn(m, kind), AuthIn(m, kind)))
    && ((forall i :: 0 <= i < |es| ==> !Sets(es[i], kind)) ==>
          CipherIn(m, kind) == CipherIn(before, kind) && AuthIn(m, kind) == AuthIn(before, kind))
  }

  function CipherIn(m: Summary, kind: Kind): bv8 { if kind == Rsn then m.rsnCipher else m.wpaCipher }

  function AuthIn(m: Summary, kind: Kind): bv8 { if kind == Rsn then m.rsnAuth else m.wpaAuth }

  lemma AppliedTells(m: Summary, e: Element, kind: Kind)
    ensures var n := Applied(m, e);
            && (if Sets(e, kind) then SecurityTold(kind, e.security, CipherIn(n, kind), AuthIn(n, kind))
                else CipherIn(n, kind) == CipherIn(m, kind) && AuthIn(n, kind) == AuthIn(m, kind))
            && n.ssid == if Names(e) then e.name else m.ssid
  {
    hide SecurityTold, CipherMask, AuthMask, SecurityBytes;
    if e.SecurityElement? {
      MasksTell(e.kind, e.security);
    }
  }

  lemma {:induction false} SummaryTells(m: Summary, es: seq<Element>)
    ensures SummaryTold(m, es, Summarized(m, es))
    decreases |es|
  {
    hide Applied, Sets, Names, SecurityTold, CipherIn, AuthIn;
    if es != [] {
      var n := Applied(m, es[0]);
      AppliedTells(m, es[0], Rsn);
      AppliedTells(m, es[0], Wpa);
      SummaryTells(n, es[1..]);
      KindMore(m, n, es, Summarized(m, es), Rsn);
      KindMore(m, n, es, Summarized(m, es), Wpa);
      NameMore(m, n, es, Summarized(m, es));
    }
  }

  lemma KindMore(m: Summary, n: Summary, es: seq<Element>, z: Summary, kind: Kind)
    requires es != [] && KindTold(n, es[1..], z, kind)
    requires if Sets(es[0], kind) then SecurityTold(kind, es[0].security, CipherIn(n, kind), AuthIn(n, kind))
             else CipherIn(n, kind) == CipherIn(m, kind) && AuthIn(n, kind) == AuthIn(m, kind)
    ensures KindTold(m, es, z, kind)
  {
    hide Sets, SecurityTold, CipherIn, AuthIn;
    assert forall i :: 0 <= i < |es[1..]| ==> es[1..][i] == es[i + 1];
    assert forall i :: 1 <= i < |es| ==> es[i] == es[1..][i - 1];
  }

  lemma NameMore(m: Summary, n: Summary, es: seq<Element>, z: Summary)
    requires es != [] && NameTold(n, es[1..], z)
    requires n.ssid == if Names(es[0]) then es[0].name else m.ssid
    ensures NameTold(m, es, z)
  {
    assert forall i :: 0 <= i < |es[1..]| ==> es[1..][i] == es[i + 1];
    assert forall i :: 1 <= i < |es| ==> es[i] == es[1..][i - 1];
  }

  function RecordsOf(es: seq<Element>): (rs: seq<Record>)
    ensures |rs| == |es|
  {
    seq(|es|, i requires 0 <= i < |es| => ToRecord(es[i]))
  }

  class ScanSummary {
    const ssid: array<uint8>
    var ssidLen: uint8
    var caps: uint16
    var beaconPeriod: uint16
    var rsnCipher: bv8
    var rsnAuth: bv8
    var wpaCipher: bv8
    var wpaAuth: bv8

    constructor ()
      ensures Valid() && fresh(ssid) && Contents() == NO_SUMMARY
    {
      ssid := new uint8[SSID_MAX](_ => 0);
      ssidLen, caps, beaconPeriod, rsnCipher, rsnAuth, wpaCipher, wpaAuth := 0, 0, 0, 0, 0, 0, 0;
    }

    ghost predicate Valid()
      reads this
    {
      ssid.Length == SSID_MAX && ssidLen as int <= SSID_MAX
    }

    function Contents(): Summary
      requires Valid()
      reads this, ssid
    {
      Summary(ssid[..ssidLen], rsnCipher, rsnAuth, wpaCipher, wpaAuth)
    }

    method SetSsid(buf: seq<uint8>, pos: nat, len: uint8)
      requires Valid() && pos + len as int <= |buf|
      modifies this`ssidLen, ssid
      ensures Valid()
      ensures Contents() == if len as int <= SSID_MAX then old(Contents()).(ssid := buf[pos..pos + len as int]) else old(Contents())
    {
      if len as int <= SSID_MAX {
        ssidLen := len;
        forall i | 0 <= i < len as int {
          ssid[i] := buf[pos + i];
        }
        assert ssid[..len] == buf[pos..pos + len as int];
      }
    }

    method SetFixedFields(caps: uint16, beaconPeriod: uint16)
      requires Valid()
      modifies this`caps, this`beaconPeriod
      ensures Valid() && Contents() == old(Contents()) && this.caps == caps && this.beaconPeriod == beaconPeriod
    {
      this.caps, this.beaconPeriod := caps, beaconPeriod;
    }

    /** The switch over one element. */
    method ParseElement(buf: seq<uint8>, pos: nat, ghost e: Element)
      requires Valid() && ElementOk(e) && ElementAt(buf, pos, ToRecord(e))
      modifies this`ssidLen, this`rsnCipher, this`rsnAuth, this`wpaCipher, this`wpaAuth, ssid
      ensures Valid() && Contents() == Applied(old(Contents()), e)
    {
      hide WellFormed, CipherMask, AuthMask, SecurityBytes;
      if buf[pos] == ELEMID_SSID {
        SetSsid(buf, pos + 2, buf[pos + 1]);
      } else if buf[pos] == ELEMID_RSN {
        ParseRsn(buf, pos, e);
      } else if buf[pos] == ELEMID_VENDOR {
        ParseVendor(buf, pos, e);
      }
    }

    /** The RSN case of the switch. */
    method ParseRsn(buf: seq<uint8>, pos: nat, ghost e: Element)
      requires Valid() && ElementOk(e) && ToRecord(e).id == ELEMID_RSN && ElementAt(buf, pos, ToRecord(e))
      modifies this`rsnCipher, this`rsnAuth
      ensures Valid() && Contents() == Applied(old(Contents()), e)
    {
      hide SecurityBytes, WellFormed, CipherMask, AuthMask;
      if e.SecurityElement? {
        SecurityStands(buf, pos, e);
      }
      var ieLen: uint16 := buf[pos + 1];
      var temp := pos + 2;
      IgnoredStands(buf, pos, e);
      if Read16(buf[temp], buf[temp + 1]) != VERSION {
        return;
      }
      ieLen := Wrap16(ieLen as int - 2);
      temp := temp + 2;
      rsnCipher, rsnAuth := SecurityIeParse(Rsn, buf, temp, Wrap8(ieLen), e.security);
    }

    /** The vendor case: only a WPA element of more than six bytes counts. */
    method ParseVendor(buf: seq<uint8>, pos: nat, ghost e: Element)
      requires Valid() && ElementOk(e) && ToRecord(e).id == ELEMID_VENDOR && ElementAt(buf, pos, ToRecord(e))
      modifies this`wpaCipher, this`wpaAuth
      ensures Valid() && Contents() == Applied(old(Contents()), e)
    {
      hide SecurityBytes, WellFormed, CipherMask, AuthMask, Read16, PassedOver;
      if e.SecurityElement? {
        SecurityStands(buf, pos, e);
        assert |SecurityBytes(e.security)| == 0 <==> SecurityBytes(e.security) == [];
      }
      var wpa := NamesWpa(buf, pos);
      if wpa {
        ParseWpa(buf, pos, e);
      }
    }

    method ParseWpa(buf: seq<uint8>, pos: nat, ghost e: Element)
      requires Valid() && ElementOk(e) && ToRecord(e).id == ELEMID_VENDOR && ElementAt(buf, pos, ToRecord(e))
      requires buf[pos + 1] > 6 && buf[pos + 2..pos + 6] == Preamble(Wpa)
      modifies this`wpaCipher, this`wpaAuth
      ensures Valid()
      ensures Contents() ==
              if e.Ignored? then old(Contents())
              else old(Contents()).(wpaCipher := CipherMask(Wpa, e.security), wpaAuth := AuthMask(Wpa, e.security))
    {
      hide SecurityBytes, WellFormed, CipherMask, AuthMask, At, Read16, PassedOver;
      IgnoredStands(buf, pos, e);
      if e.SecurityElement? {
        SecurityStands(buf, pos, e);
      }
      var ieLen: uint16 := buf[pos + 1] - 4;
      var temp := pos + 6;
      if Read16(buf[temp], buf[temp + 1]) != VERSION {
        return;
      }
      ieLen := Wrap16(ieLen as int - 2);
      temp := temp + 2;
      wpaCipher, wpaAuth := SecurityIeParse(Wpa, buf, temp, Wrap8(ieLen), e.security);
    }
  }

  /** A beacon's bytes: the fixed fields, then the elements. */
  ghost predicate IsBeacon(buf: seq<uint8>, es: seq<Element>)
  {
    && (forall e :: e in es ==> ElementOk(e))
    && |buf| >= IE_INDEX
    && ElementsStand(buf, IE_INDEX, es)
  }

  /** The elements' bytes fill the buffer from `pos` on. */
  ghost predicate ElementsStand(buf: seq<uint8>, pos: nat, es: seq<Element>)
  {
    && pos <= |buf|
    && (forall e :: e in es ==> |ToRecord(e).body| < 0x100)
    && Encodable(RecordsOf(es)) && buf[pos..] == Encode(RecordsOf(es))
  }

  lemma NextElement(buf: seq<uint8>, pos: nat, es: seq<Element>)
    requires ElementsStand(buf, pos, es)
    ensures es == [] <==> pos == |buf|
    ensures es != [] ==>
              var r := ToRecord(es[0]);
              ElementAt(buf, pos, r) && ElementsStand(buf, pos + 2 + |r.body|, es[1..])
  {
    if es != [] {
      assert es[0] in es;
      var r, rs := ToRecord(es[0]), RecordsOf(es);
      assert rs[0] == r && rs[1..] == RecordsOf(es[1..]) && rs == [r] + rs[1..];
      ElementsCons(buf, pos, r, rs[1..]);
      assert forall e :: e in es[1..] ==> e in es;
    }
  }

  lemma ElementsCons(buf: seq<uint8>, pos: nat, r: Record, rs: seq<Record>)
    requires |r.body| < 0x100 && pos <= |buf| && Encodable([r] + rs) && buf[pos..] == Encode([r] + rs)
    ensures ElementAt(buf, pos, r)
    ensures Encodable(rs) && buf[pos + 2 + |r.body|..] == Encode(rs)
  {
    forall x | x in rs
      ensures |x.body| < 0x100
    {
      assert x in [r] + rs;
    }
    EncodeCons(r, rs);
    var b := buf[pos..];
    assert b == [r.id, |r.body|] + r.body + Encode(rs);
    assert b[0] == r.id && b[1] as int == |r.body|;
    assert b[2..2 + |r.body|] == r.body && b[2 + |r.body|..] == Encode(rs);
    assert buf[pos + 2..pos + 2 + |r.body|] == b[2..2 + |r.body|];
    assert buf[pos + 2 + |r.body|..] == b[2 + |r.body|..];
  }

  /** Api_ParseInfoElem: the fixed fields, then a pointer over the elements. For
      every list of well-formed elements it ends exactly at the end of the buffer,
      and the summary is the fold over the list. */
  method ParseInfoElem(buf: seq<uint8>, ghost es: seq<Element>) returns (ok: bool, m: ScanSummary)
    requires |buf| >= IE_INDEX ==> IsBeacon(buf, es)
    ensures fresh(m) && fresh(m.ssid) && m.Valid()
    ensures ok <==> |buf| >= IE_INDEX
    ensures m.Contents() == if ok then Summarized(NO_SUMMARY, es) else NO_SUMMARY
    ensures ok ==> SummaryTold(NO_SUMMARY, es, m.Contents())
    ensures ok ==> m.caps == Read16(buf[CAPS_INDEX], buf[CAPS_INDEX + 1])
                   && m.beaconPeriod == Read16(buf[BEACON_PERIOD_INDEX], buf[BEACON_PERIOD_INDEX + 1])
  {
    m := new ScanSummary();
    if |buf| < IE_INDEX {
      return false, m;
    }
    m.SetFixedFields(Read16(buf[CAPS_INDEX], buf[CAPS_INDEX + 1]), Read16(buf[BEACON_PERIOD_INDEX], buf[BEACON_PERIOD_INDEX + 1]));
    var pos, k := IE_INDEX, 0;
    assert es[0..] == es;
    while pos < |buf|
      invariant fresh(m) && fresh(m.ssid) && m.Valid()
      invariant 0 <= k <= |es| && ElementsStand(buf, pos, es[k..])
      invariant m.caps == Read16(buf[CAPS_INDEX], buf[CAPS_INDEX + 1])
      invariant m.beaconPeriod == Read16(buf[BEACON_PERIOD_INDEX], buf[BEACON_PERIOD_INDEX + 1])
      invariant Summarized(NO_SUMMARY, es) == Summarized(m.Contents(), es[k..])
      decreases |buf| - pos
    {
      hide Applied, ElementOk, ElementsStand;
      NextElement(buf, pos, es[k..]);
      assert es[k..][1..] == es[k + 1..];
      m.ParseElement(buf, pos, es[k]);
      pos := pos + buf[pos + 1] as int + 2;
      k := k + 1;
    }
    NextElement(buf, pos, es[k..]);
    hide SummaryTold;
    SummaryTells(NO_SUMMARY, es);
    return true, m;
  }

  /** The guard of the vendor case. */
  method NamesWpa(buf: seq<uint8>, pos: nat) returns (wpa: bool)
    requires pos + 2 <= |buf| && pos + 2 + buf[pos + 1] as int <= |buf|
    ensures wpa <==> buf[pos + 1] > 6 && buf[pos + 2..pos + 6] == Preamble(Wpa)
  {
    if buf[pos + 1] <= 6 {
      return false;
    }
    var w := buf[pos + 2..pos + 6];
    WordNamesSuite(w, WPA_OUI, 0xF25000);
    assert w == w[..3] + [w[3]];
    return Read32(w) == Sel(0xF25000, WPA_OUI_TYPE);
  }

  ghost predicate ElementAt(buf: seq<uint8>, pos: nat, r: Record)
  {
    && |r.body| < 0x100 && pos + 2 + |r.body| <= |buf|
    && buf[pos] == r.id && buf[pos + 1] as int == |r.body| && buf[pos + 2..pos + 2 + |r.body|] == r.body
  }

  lemma SecurityStands(buf: seq<uint8>, pos: nat, e: Element)
    requires e.SecurityElement? && ElementAt(buf, pos, ToRecord(e))
    ensures var v := pos + 2 + |Preamble(e.kind)|;
            && At(buf, pos + 2, Preamble(e.kind))
            && v + 2 <= |buf| && Read16(buf[v], buf[v + 1]) == VERSION
            && At(buf, v + 2, SecurityBytes(e.security))
            && buf[pos + 1] as int == |Preamble(e.kind)| + 2 + |SecurityBytes(e.security)|
  {
    var p, n, s := Preamble(e.kind), Bytes16(VERSION), SecurityBytes(e.security);
    assert ToRecord(e).body == p + (n + s);
    assert At(buf, pos + 2, p + (n + s));
    hide SecurityBytes, Preamble, Read16, At;
    AtParts(buf, pos + 2, p, n + s);
    AtParts(buf, pos + 2 + |p|, n, s);
    CountReads(buf, pos + 2 + |p|, VERSION);
  }

  lemma IgnoredStands(buf: seq<uint8>, pos: nat, e: Element)
    requires ElementAt(buf, pos, ToRecord(e)) && ElementOk(e)
    ensures e.Ignored? && ToRecord(e).id == ELEMID_RSN ==>
              pos + 4 <= |buf| && Read16(buf[pos + 2], buf[pos + 3]) != VERSION
    ensures e.Ignored? && ToRecord(e).id == ELEMID_VENDOR && buf[pos + 1] > 6 && buf[pos + 2..pos + 6] == Preamble(Wpa) ==>
              Read16(buf[pos + 6], buf[pos + 7]) != VERSION
  {
    if e.Ignored? {
      var body := e.element.body;
      assert body == buf[pos + 2..pos + 2 + |body|];
      if |body| > 6 {
        assert body[..4] == buf[pos + 2..pos + 6];
      }
    }
  }
}
