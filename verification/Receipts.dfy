/** Receipts of release decisions: how glass_ionomer/engine/enforcer.py issues and checks them. */
module Receipts {
  import opened Wrappers
  import opened CanonicalValues

  const ENGINE_VERSION := "glass_ionomer.engine.v2"
  const LEGACY_VERSION := "glass_ionomer.engine.v1"

  datatype Notice = Notice(name: string, severity: string)

  /** The fields that are hashed. */
  datatype Content = Content(
    engineVersion: string,
    claimId: string,
    rawClaimHash: string,
    verificationPlan: string,
    certStatus: string,
    certSource: string,
    certDefinitive: bool,
    certRecordHash: string,
    advisories: seq<Notice>,
    releaseDecision: string,
    riskTier: int,
    disclaimer: string)

  datatype Receipt = Receipt(content: Content, receiptHash: string, signature: Option<string>)

  /**
   The digest of texts, the hash that version 1 receipts were issued under, the keyed digest, and Python's limit
   on the digits of an integer that is turned into text.
  */
  datatype Digests = Digests(hash: Digest, legacy: Content -> string, mac: (string, string) -> string, maxDigits: Option<nat>)
  {
    /** No signature is empty: the keyed digest of the source has 64 digits. Python sets no limit below 640. */
    ghost predicate Valid() {
      (forall key, text :: mac(key, text) != "") && (maxDigits.Some? ==> maxDigits.value >= 640)
    }
  }

  function NoticeValues(ns: seq<Notice>): (vs: seq<Value>)
    ensures |vs| == |ns| && forall i :: 0 <= i < |ns| ==> vs[i] == VList([VStr(ns[i].name), VStr(ns[i].severity)])
  {
    seq(|ns|, i requires 0 <= i < |ns| => VList([VStr(ns[i].name), VStr(ns[i].severity)]))
  }

  /** The hashed fields other than the advisories, by name. */
  function FieldEntries(c: Content): seq<Entry> {
    [
      Entry("cert_definitive_nonllm", VBool(c.certDefinitive)),
      Entry("cert_record_hash", VStr(c.certRecordHash)),
      Entry("cert_source", VStr(c.certSource)),
      Entry("cert_status", VStr(c.certStatus)),
      Entry("claim_id", VStr(c.claimId)),
      Entry("disclaimer", VStr(c.disclaimer)),
      Entry("engine_version", VStr(c.engineVersion)),
      Entry("raw_claim_sha256", VStr(c.rawClaimHash)),
      Entry("release_decision", VStr(c.releaseDecision)),
      Entry("risk_tier", VInt(c.riskTier)),
      Entry("verification_plan", VStr(c.verificationPlan))
    ]
  }

  function ContentValue(c: Content): Value {
    VDict([Entry("advisories", VList(NoticeValues(c.advisories)))] + FieldEntries(c))
  }

  function ContentHash(d: Digests, c: Content): Result<string> {
    if c.engineVersion == LEGACY_VERSION then Ok(d.legacy(c)) else CanonicalHash(d.hash, ContentValue(c), d.maxDigits)
  }

  /** `_build_receipt`: content beyond the serialiser and an empty key are refused. */
  function Issue(d: Digests, c: Content, key: Option<string>): Result<Receipt>
    requires c.engineVersion == ENGINE_VERSION
  {
    match ContentHash(d, c)
    case Raised => Raised
    case Ok(h) =>
      if key == Some("") then Raised
      else Ok(Receipt(c, h, if key.Some? then Some(d.mac(key.value, h)) else None))
  }

  /** `verify_receipt`: without a key only the hash is checked, which a required signature does not accept. */
  function Verify(d: Digests, r: Receipt, key: Option<string>, requireSignature: bool): Result<bool> {
    match ContentHash(d, r.content)
    case Raised => Raised
    case Ok(h) =>
      if h != r.receiptHash then Ok(false)
      else if key.None? then Ok(!requireSignature)
      else if r.signature.None? || r.signature.value == "" then Ok(false)
      else if key.value == "" then Raised
      else Ok(d.mac(key.value, r.receiptHash) == r.signature.value)
  }

  lemma SizeOfNotices(ns: seq<Notice>, maxDigits: Option<nat>)
    ensures Sizes(NoticeValues(ns)) == 3 * |ns| && Heights(NoticeValues(ns)) <= 2 && AllPrintable(NoticeValues(ns), maxDigits)
  {
    forall v | v in NoticeValues(ns)
      ensures Size(v) == 3 && Height(v) <= 1 && Printable(v, maxDigits)
    {
      var i :| 0 <= i < |ns| && NoticeValues(ns)[i] == v;
      MeasureItems(v.items, 1, 0, maxDigits);
    }
    MeasureItems(NoticeValues(ns), 3, 1, maxDigits);
  }

  lemma SizeOfContent(c: Content, maxDigits: Option<nat>)
    requires IsPrintable(c.riskTier, maxDigits)
    ensures Size(ContentValue(c)) == 13 + 3 * |c.advisories| && Height(ContentValue(c)) <= 3
    ensures Printable(ContentValue(c), maxDigits)
  {
    SizeOfNotices(c.advisories, maxDigits);
    FieldsAreLeaves(c, maxDigits);
    MeasureDict(Entry("advisories", VList(NoticeValues(c.advisories))), FieldEntries(c), maxDigits);
  }

  lemma FieldsAreLeaves(c: Content, maxDigits: Option<nat>)
    requires IsPrintable(c.riskTier, maxDigits)
    ensures |FieldEntries(c)| == 11 && forall d :: d in FieldEntries(c) ==> IsLeaf(d.value, maxDigits)
  {
  }

  /** A current content is hashed exactly where it lists no more than 33329 advisories. */
  lemma ContentHashedExactly(d: Digests, c: Content)
    requires c.engineVersion != LEGACY_VERSION && IsPrintable(c.riskTier, d.maxDigits)
    ensures ContentHash(d, c).Ok? <==> 13 + 3 * |c.advisories| <= MAX_NODES
  {
    SizeOfContent(c, d.maxDigits);
  }

  lemma ContentValueIsInjective(b: Content, c: Content)
    requires ContentValue(b) == ContentValue(c)
    ensures b == c
  {
    assert ContentValue(b).entries[0] == ContentValue(c).entries[0];
    var v, w := FieldEntries(b), FieldEntries(c);
    assert v == ContentValue(b).entries[1..] && w == ContentValue(c).entries[1..];
    assert v[0] == w[0] && v[1] == w[1] && v[2] == w[2] && v[3] == w[3] && v[4] == w[4] && v[5] == w[5];
    assert v[6] == w[6] && v[7] == w[7] && v[8] == w[8] && v[9] == w[9] && v[10] == w[10];
  }

  /** An issued receipt passes exactly without a key, where none is demanded, or under a key that signs like its own. */
  lemma IssuedPassesExactly(d: Digests, c: Content, issuer: Option<string>, key: Option<string>, requireSignature: bool)
    requires d.Valid() && c.engineVersion == ENGINE_VERSION && Issue(d, c, issuer).Ok? && key != Some("")
    ensures var r := Issue(d, c, issuer).value;
            Verify(d, r, key, requireSignature) == Ok(true)
            <==> if key.None? then !requireSignature
                 else issuer.Some? && d.mac(key.value, r.receiptHash) == d.mac(issuer.value, r.receiptHash)
  {
  }

  /** Two receipts of the current version that pass with one hash certify the same content, field by field. */
  lemma HashPinsContent(d: Digests, r: Receipt, r': Receipt, key: Option<string>, key': Option<string>)
    requires IsInjective(d.hash) && Verify(d, r, key, false) == Ok(true) && Verify(d, r', key', false) == Ok(true)
    requires r.content.engineVersion != LEGACY_VERSION && r'.content.engineVersion != LEGACY_VERSION
    ensures r.receiptHash == r'.receiptHash <==> r.content == r'.content
  {
    HashPinsValue(d.hash, ContentValue(r.content), ContentValue(r'.content), d.maxDigits);
    if r.receiptHash == r'.receiptHash {
      ContentValueIsInjective(r.content, r'.content);
    }
  }

  /** Under a key a receipt passes exactly where it is signed with that key over the hash of its own content. */
  lemma KeyedPassesExactly(d: Digests, r: Receipt, key: string, requireSignature: bool)
    requires d.Valid() && key != ""
    ensures Verify(d, r, Some(key), requireSignature) == Ok(true)
            <==> ContentHash(d, r.content) == Ok(r.receiptHash) && r.signature == Some(d.mac(key, r.receiptHash))
  {
  }

  /** Without one it passes exactly where its hash is that of its content and no signature is demanded. */
  lemma UnkeyedPassesExactly(d: Digests, r: Receipt, requireSignature: bool)
    ensures Verify(d, r, None, requireSignature) == Ok(true)
            <==> ContentHash(d, r.content) == Ok(r.receiptHash) && !requireSignature
  {
  }

  /** Version 1 receipts, and no others, are checked against the hash of their time. */
  lemma LegacyExactly(d: Digests, c: Content)
    ensures c.engineVersion == "glass_ionomer.engine.v1" ==> ContentHash(d, c) == Ok(d.legacy(c))
    ensures (c.engineVersion != "glass_ionomer.engine.v1" && ContentHash(d, c).Ok?) ==>
              ContentHash(d, c).value == d.hash(CanonicalText(ContentValue(c)))
  {
  }
}
