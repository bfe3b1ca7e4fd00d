/**
 The canonical bytes a receipt signs: a fixed nine-line text, one field a line,
 the first a context string that no other kind of statement uses.

 Counts are decimal, hashes and the session id are hex, and the other two fields
 have fixed shapes, so no field can hold a newline. Two texts are therefore equal
 only line by line.

 An unscoped checkpoint writes a dash where a scoped one writes three words
 separated by spaces, so neither is mistaken for the other.

 Two valid checkpoints with the same bytes are the same checkpoint, so one
 signature covers one statement.
 */
module Canonical {
  import opened Bytes
  import opened Text
  import Utf8
  import opened Checkpoints

  const CONTEXT := "writ.receipt.checkpoint.v1"

  function SessionText(session: Option<SessionScope>): string {
    if session.None? then "-"
    else
      var s := session.value;
      HexEncode(Utf8.Encode(s.id)) + " " + (Decimal(s.records) + " " + s.merkleRoot)
  }

  function Lines(cp: Checkpoint): seq<string> {
    [ CONTEXT,
      "ledger_id " + cp.ledgerId,
      "records " + Decimal(cp.records),
      "tip_index " + Decimal(cp.tipIndex),
      "tip_hash " + cp.tipHash,
      "merkle_root " + cp.merkleRoot,
      "session " + SessionText(cp.session),
      "created_at " + cp.createdAt,
      "signer " + cp.signer ]
  }

  function Join(lines: seq<string>): string {
    if lines == [] then "" else lines[0] + "\n" + Join(lines[1..])
  }

  /** `canonical_bytes`: nothing is rendered that does not validate. */
  function CanonicalBytes(cp: Checkpoint): (r: Option<Bytes>)
    ensures r.Some? <==> Valid(cp)
  {
    if Valid(cp) then Some(Utf8.Encode(Join(Lines(cp)))) else None
  }

  // ------------------------------------------------------------------
  // Injectivity

  ghost predicate SingleLines(lines: seq<string>) {
    forall i :: 0 <= i < |lines| ==> '\n' !in lines[i]
  }

  lemma {:induction false} JoinInjective(a: seq<string>, b: seq<string>)
    requires SingleLines(a) && SingleLines(b) && |a| == |b| && Join(a) == Join(b)
    ensures a == b
  {
    if a == [] {
    } else {
      CutAtSeparator(a[0], b[0], Join(a[1..]), Join(b[1..]), '\n');
      JoinInjective(a[1..], b[1..]);
      assert a == [a[0]] + a[1..] && b == [b[0]] + b[1..];
    }
  }

  lemma Cancel(p: string, x: string, y: string)
    requires p + x == p + y
    ensures x == y
  {
    assert (p + x)[|p|..] == x && (p + y)[|p|..] == y;
  }

  /** No rendered field holds the separators of the format. */
  lemma FieldsAreWords(cp: Checkpoint)
    requires Valid(cp)
    ensures SingleLines(Lines(cp))
  {
    assert forall c :: IsLowerHex(c) || IsDigit(c) ==> c != '\n';
    assert forall i :: 0 <= i < 20 ==> cp.createdAt[i] != '\n';
    SignerIsWord(cp.signer);
    SessionIsLine(cp.session);
  }

  lemma SignerIsWord(s: string)
    requires IsSigner(s)
    ensures '\n' !in s
  {
    assert s == SIGNER_PREFIX + s[|SIGNER_PREFIX|..];
  }

  lemma SessionIsLine(session: Option<SessionScope>)
    requires session.Some? ==> IsHex64(session.value.merkleRoot)
    ensures '\n' !in SessionText(session)
  {
  }

  lemma SessionInjective(a: Option<SessionScope>, b: Option<SessionScope>)
    requires SessionText(a) == SessionText(b)
    requires a.Some? ==> a.value.id != ""
    requires b.Some? ==> b.value.id != ""
    ensures a == b
  {
    if a.Some? && b.Some? {
      var x, y := HexEncode(Utf8.Encode(a.value.id)), HexEncode(Utf8.Encode(b.value.id));
      CutAtSeparator(x, y, Decimal(a.value.records) + " " + a.value.merkleRoot,
                     Decimal(b.value.records) + " " + b.value.merkleRoot, ' ');
      CutAtSeparator(Decimal(a.value.records), Decimal(b.value.records), a.value.merkleRoot, b.value.merkleRoot, ' ');
      HexInjective(Utf8.Encode(a.value.id), Utf8.Encode(b.value.id));
      Utf8.Injective(a.value.id, b.value.id);
      DecimalInjective(a.value.records, b.value.records);
    } else if a.Some? {
      ScopedIsNotDash(a);
    } else if b.Some? {
      ScopedIsNotDash(b);
    }
  }

  lemma ScopedIsNotDash(a: Option<SessionScope>)
    requires a.Some?
    ensures SessionText(a) != "-"
  {
    var text := SessionText(a);
    var hex := HexEncode(Utf8.Encode(a.value.id));
    assert text[|hex|] == ' ';
  }

  /** One canonical rendering, one checkpoint. */
  lemma CanonicalInjective(a: Checkpoint, b: Checkpoint)
    requires Valid(a) && Valid(b) && CanonicalBytes(a) == CanonicalBytes(b)
    ensures a == b
  {
    Utf8.Injective(Join(Lines(a)), Join(Lines(b)));
    FieldsAreWords(a);
    FieldsAreWords(b);
    var x, y := Lines(a), Lines(b);
    JoinInjective(x, y);
    SameLines(a, b);
  }

  lemma SameLines(a: Checkpoint, b: Checkpoint)
    requires Valid(a) && Valid(b) && Lines(a) == Lines(b)
    ensures a == b
  {
    var x, y := Lines(a), Lines(b);
    assert x[1] == y[1] && x[2] == y[2] && x[3] == y[3] && x[4] == y[4];
    assert x[5] == y[5] && x[6] == y[6] && x[7] == y[7] && x[8] == y[8];
    Cancel("ledger_id ", a.ledgerId, b.ledgerId);
    Cancel("records ", Decimal(a.records), Decimal(b.records));
    DecimalInjective(a.records, b.records);
    Cancel("tip_hash ", a.tipHash, b.tipHash);
    Cancel("merkle_root ", a.merkleRoot, b.merkleRoot);
    Cancel("session ", SessionText(a.session), SessionText(b.session));
    SessionInjective(a.session, b.session);
    Cancel("created_at ", a.createdAt, b.createdAt);
    Cancel("signer ", a.signer, b.signer);
  }

  lemma {:induction false} JoinFrom(lines: seq<string>, k: nat)
    requires k < |lines|
    ensures Join(lines[k..]) == lines[k] + "\n" + Join(lines[k + 1..])
  {
    assert lines[k..][1..] == lines[k + 1..];
  }

  /** The lines of the text: which field stands where, and under what name. */
  lemma CanonicalText(cp: Checkpoint)
    requires Valid(cp)
    ensures CanonicalBytes(cp) == Some(Utf8.Encode(
              "writ.receipt.checkpoint.v1" + "\n"
              + ("ledger_id " + cp.ledgerId + "\n"
              + ("records " + Decimal(cp.records) + "\n"
              + ("tip_index " + Decimal(cp.tipIndex) + "\n"
              + ("tip_hash " + cp.tipHash + "\n"
              + ("merkle_root " + cp.merkleRoot + "\n"
              + ("session " + (if cp.session.None? then "-"
                               else HexEncode(Utf8.Encode(cp.session.value.id)) + " "
                                    + (Decimal(cp.session.value.records) + " " + cp.session.value.merkleRoot)) + "\n"
              + ("created_at " + cp.createdAt + "\n"
              + ("signer " + cp.signer + "\n" + ""))))))))))
  {
    var lines := Lines(cp);
    assert lines[0..] == lines && lines[9..] == [];
    JoinFrom(lines, 0);
    JoinFrom(lines, 1);
    JoinFrom(lines, 2);
    JoinFrom(lines, 3);
    JoinFrom(lines, 4);
    JoinFrom(lines, 5);
    JoinFrom(lines, 6);
    JoinFrom(lines, 7);
    JoinFrom(lines, 8);
  }
}
