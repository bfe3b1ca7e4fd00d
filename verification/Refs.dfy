/**
 Gateway refs: a self-contained name for a Decision record, with the approver
 identity added once an ask is approved.
 */
module Refs {
  import opened Bytes
  import opened Text
  import Utf8
  import opened Ledger

  const PREFIX := "w1"
  const U64 := 0x1_0000_0000_0000_0000

  datatype Ref = Ref(index: nat, hash: string, approver: Option<Approver>)

  function KindName(k: ApproverKind): string {
    match k
    case Tui => "tui"
    case OutOfBand => "oob"
    case Rbac => "rbac"
  }

  function KindFromName(s: string): Option<ApproverKind> {
    if s == "tui" then Some(Tui)
    else if s == "oob" then Some(OutOfBand)
    else if s == "rbac" then Some(Rbac)
    else None
  }

  function Parts(r: Ref): seq<string> {
    [PREFIX, Decimal(r.index), r.hash]
    + if r.approver.None? then []
      else [KindName(r.approver.value.kind), HexEncode(Utf8.Encode(r.approver.value.id))]
  }

  /** The parts joined with dots. */
  function Dotted(parts: seq<string>): string
    requires parts != []
  {
    if |parts| == 1 then parts[0] else parts[0] + "." + Dotted(parts[1..])
  }

  function MakeRef(r: Ref): string {
    Dotted(Parts(r))
  }

  /** `str::split('.')`. */
  function SplitDots(s: string): (parts: seq<string>)
    ensures parts != []
  {
    if s == "" then [""]
    else
      var rest := SplitDots(s[1..]);
      if s[0] == '.' then [""] + rest else [[s[0]] + rest[0]] + rest[1..]
  }

  function ParseRef(s: string): Option<Ref> {
    var parts := SplitDots(s);
    if (|parts| != 3 && |parts| != 5) || parts[0] != PREFIX then None
    else
      var index := ParseNat(parts[1]);
      if index.None? || index.value >= U64 || !IsHex64(parts[2]) then None
      else if |parts| == 3 then Some(Ref(index.value, parts[2], None))
      else
        var kind, raw := KindFromName(parts[3]), HexDecode(parts[4]);
        if kind.None? || raw.None? then None
        else
          var id := Utf8.Decode(raw.value);
          if id.None? || id.value == "" then None
          else Some(Ref(index.value, parts[2], Some(Approver(kind.value, id.value))))
  }

  lemma {:induction false} SplitWord(a: string)
    requires '.' !in a
    ensures SplitDots(a) == [a]
  {
    if a == "" {
    } else {
      SplitWord(a[1..]);
      assert a == [a[0]] + a[1..];
    }
  }

  lemma {:induction false} SplitFirst(a: string, rest: string)
    requires '.' !in a
    ensures SplitDots(a + "." + rest) == [a] + SplitDots(rest)
  {
    var s := a + "." + rest;
    if a == "" {
      assert s[0] == '.' && s[1..] == rest;
    } else {
      assert s[1..] == a[1..] + "." + rest;
      SplitFirst(a[1..], rest);
      assert a == [a[0]] + a[1..];
    }
  }

  ghost predicate Undotted(parts: seq<string>) {
    forall i :: 0 <= i < |parts| ==> '.' !in parts[i]
  }

  lemma {:induction false} SplitJoined(parts: seq<string>)
    requires parts != [] && Undotted(parts)
    ensures SplitDots(Dotted(parts)) == parts
  {
    if |parts| == 1 {
      SplitWord(parts[0]);
      assert parts == [parts[0]];
    } else {
      SplitFirst(parts[0], Dotted(parts[1..]));
      SplitJoined(parts[1..]);
      assert parts == [parts[0]] + parts[1..];
    }
  }

  lemma PartsUndotted(r: Ref)
    requires IsHex64(r.hash)
    ensures Undotted(Parts(r))
  {
    assert forall c :: IsLowerHex(c) || IsDigit(c) ==> c != '.';
  }

  /**
   A ref handed out parses back to itself, for every u64 index and every
   64-hex hash; the one ref that does not is one with an empty approver id.
   */
  lemma RefRoundTrip(r: Ref)
    requires r.index < U64 && IsHex64(r.hash)
    ensures ParseRef(MakeRef(r)) == if r.approver.Some? && r.approver.value.id == "" then None else Some(r)
  {
    PartsUndotted(r);
    SplitJoined(Parts(r));
    DecimalRoundTrip(r.index);
    if r.approver.Some? {
      HexRoundTrip(Utf8.Encode(r.approver.value.id));
      Utf8.RoundTrip(r.approver.value.id);
      KindBack(r.approver.value.kind);
    }
  }

  lemma KindBack(k: ApproverKind)
    ensures KindFromName(KindName(k)) == Some(k)
  {
    assert "oob"[0] != "tui"[0] && |"rbac"| == 4;
  }

  // ------------------------------------------------------------------
  // What is a ref

  /** A decimal numeral: digits, leading zeros allowed, a plus sign in front allowed. */
  predicate IsNumeral(s: string, n: nat) {
    var digits := if s != "" && s[0] == '+' then s[1..] else s;
    digits != "" && DigitsValue(digits) == Some(n)
  }

  /** The five parts of a ref, or the three of one without an approver. */
  ghost predicate PartsOf(parts: seq<string>, r: Ref) {
    && Undotted(parts) && |parts| == (if r.approver.None? then 3 else 5)
    && parts[0] == "w1" && IsNumeral(parts[1], r.index) && r.index < U64
    && parts[2] == r.hash && IsHex64(r.hash)
    && (r.approver.Some? ==>
          && r.approver.value.id != ""
          && parts[3] == (match r.approver.value.kind case Tui => "tui" case OutOfBand => "oob" case Rbac => "rbac")
          && HexDecode(parts[4]) == Some(Utf8.Encode(r.approver.value.id)))
  }

  lemma {:induction false} SplitBack(s: string)
    ensures Undotted(SplitDots(s)) && Dotted(SplitDots(s)) == s
  {
    if s == "" {
    } else {
      SplitBack(s[1..]);
      var rest := SplitDots(s[1..]);
      assert s == [s[0]] + s[1..];
      if s[0] == '.' {
        assert ([""] + rest)[1..] == rest;
        assert Dotted([""] + rest) == "" + "." + Dotted(rest);
      } else {
        var parts := [[s[0]] + rest[0]] + rest[1..];
        assert parts[1..] == rest[1..];
        HeadGrows(s[0], rest);
      }
    }
  }

  lemma HeadGrows(c: char, rest: seq<string>)
    requires rest != [] && c != '.' && Undotted(rest)
    ensures Dotted([[c] + rest[0]] + rest[1..]) == [c] + Dotted(rest) && Undotted([[c] + rest[0]] + rest[1..])
  {
    var parts, more := [[c] + rest[0]] + rest[1..], rest[1..];
    assert parts[0] == [c] + rest[0] && parts[1..] == more;
    if more == [] {
      assert parts == [[c] + rest[0]] && rest == [rest[0]];
    } else {
      Regroup([c], rest[0], "." + Dotted(more));
      Regroup([c] + rest[0], ".", Dotted(more));
      Regroup(rest[0], ".", Dotted(more));
    }
    forall i | 0 <= i < |parts| ensures '.' !in parts[i] {
      if i > 0 {
        assert parts[i] == rest[i];
      }
    }
  }

  lemma ParsedParts(s: string, r: Ref)
    requires ParseRef(s) == Some(r)
    ensures PartsOf(SplitDots(s), r) && s == Dotted(SplitDots(s))
  {
    SplitBack(s);
    var parts := SplitDots(s);
    if r.approver.Some? {
      Utf8.DecodedEncodes(HexDecode(parts[4]).value);
      assert |"tui"| == 3 && |"oob"| == 3 && |"rbac"| == 4;
    }
  }

  lemma PartsParse(parts: seq<string>, r: Ref)
    requires PartsOf(parts, r)
    ensures ParseRef(Dotted(parts)) == Some(r)
  {
    SplitJoined(parts);
    if r.approver.Some? {
      Utf8.RoundTrip(r.approver.value.id);
      KindBack(r.approver.value.kind);
    }
  }

  /** A text is a ref exactly when it is made of such parts, and then it is the ref they spell. */
  lemma ParseRefIff(s: string, r: Ref)
    ensures ParseRef(s) == Some(r) <==> exists parts :: PartsOf(parts, r) && s == Dotted(parts)
  {
    if ParseRef(s) == Some(r) {
      ParsedParts(s, r);
    }
    if parts :| PartsOf(parts, r) && s == Dotted(parts) {
      PartsParse(parts, r);
    }
  }
}
