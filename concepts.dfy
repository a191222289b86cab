/**
 * The helpers both bibliography importers share: keyword-based concept
 * detection and the slug rule for citation keys.
 *
 * Every keyword pattern is a case-insensitive alternation of ASCII literals
 * (a `[- ]` class is written out as two literals), so a pattern matches
 * exactly when the ASCII-lower-cased text contains one of the literals: in
 * ECMAScript's case-insensitive matching no non-ASCII character is
 * canonicalized to an ASCII one.
 */
module Concepts {
  import opened Text

  /** A concept and the literal alternatives of its pattern. */
  datatype Keyword = Keyword(term: string, alternatives: seq<string>)

  const Keywords: seq<Keyword> := [
    Keyword("ZKP", ["zero-knowledge", "zero knowledge", "zkp", "snark", "stark"]),
    Keyword("Federated Learning", ["federated learning", "fl", "collaborative learning"]),
    Keyword("MPC", ["multi-party computation", "multi party computation", "mpc"]),
    Keyword("Blockchain", ["blockchain", "smart contract", "ledger"]),
    Keyword("IoT Security", ["iot", "device security", "embedded"]),
    Keyword("Wallet", ["wallet", "key management", "custody"]),
    Keyword("Agriculture", ["agri", "farm", "crop"])
  ]

  const ZkpTerm: string := "ZKP"
  const FederatedTerm: string := "Federated Learning"
  const WalletTerm: string := "Wallet"
  const AgricultureTerm: string := "Agriculture"

  /** `kw.pattern.test(text)`. */
  predicate Mentions(text: string, kw: Keyword) {
    exists a :: a in kw.alternatives && Contains(Lower(text), a)
  }

  /** The indices of the first `n` keywords whose pattern matches, in table order. */
  function Hits(text: string, n: nat): (h: seq<nat>)
    requires n <= |Keywords|
    ensures forall i :: 0 <= i < |h| ==> h[i] < n
  {
    if n == 0 then []
    else Hits(text, n - 1) + (if Mentions(text, Keywords[n - 1]) then [n - 1] else [])
  }

  /** `extractConcepts`: the matching keywords' terms, collected in table order. */
  function ExtractConcepts(text: string): seq<string> {
    var hits := Hits(text, |Keywords|);
    seq(|hits|, i requires 0 <= i < |hits| => Keywords[hits[i]].term)
  }

  lemma {:induction false} HitsExact(text: string, n: nat)
    requires n <= |Keywords|
    ensures var h := Hits(text, n);
      (forall i, j :: 0 <= i < j < |h| ==> h[i] < h[j]) &&
      (forall k :: 0 <= k < n ==> (k in h <==> Mentions(text, Keywords[k])))
  {
    if n > 0 {
      HitsExact(text, n - 1);
    }
  }

  lemma TermsDistinct()
    ensures forall p, q :: 0 <= p < q < |Keywords| ==> Keywords[p].term != Keywords[q].term
  {
    var t := seq(|Keywords|, k requires 0 <= k < |Keywords| => Keywords[k].term);
    assert t == [ZkpTerm, FederatedTerm, "MPC", "Blockchain", "IoT Security", WalletTerm, AgricultureTerm];
    assert t[0][0] == 'Z' && t[1][0] == 'F' && t[2][0] == 'M' && t[3][0] == 'B' && t[4][0] == 'I';
    assert t[5][0] == 'W' && t[6][0] == 'A';
  }

  /**
   * A concept is reported exactly when one of its literals occurs in the
   * text, ignoring ASCII case; the report follows the table order and names
   * no concept twice.
   */
  lemma ExtractConceptsExact(text: string)
    ensures var r := ExtractConcepts(text);
      (forall k :: 0 <= k < |Keywords| ==> (Keywords[k].term in r <==> Mentions(text, Keywords[k]))) &&
      (forall i, j :: 0 <= i < j < |r| ==> r[i] != r[j]) &&
      (forall t :: t in r ==> exists k :: 0 <= k < |Keywords| && Keywords[k].term == t)
  {
    var h := Hits(text, |Keywords|);
    var r := ExtractConcepts(text);
    HitsExact(text, |Keywords|);
    TermsDistinct();
    forall k | 0 <= k < |Keywords|
      ensures Keywords[k].term in r <==> Mentions(text, Keywords[k])
    {
      if k in h {
        var i :| 0 <= i < |h| && h[i] == k;
        assert r[i] == Keywords[k].term;
      }
      if Keywords[k].term in r {
        var i :| 0 <= i < |r| && r[i] == Keywords[k].term;
        assert Keywords[h[i]].term == Keywords[k].term;
        assert h[i] == k;
      }
    }
  }

  /** The concepts come in table order: their keyword indices increase along the result. */
  lemma ExtractConceptsOrdered(text: string)
    ensures var h := Hits(text, |Keywords|);
      |ExtractConcepts(text)| == |h| &&
      (forall i :: 0 <= i < |h| ==> ExtractConcepts(text)[i] == Keywords[h[i]].term) &&
      (forall i, j :: 0 <= i < j < |h| ==> h[i] < h[j])
  {
    HitsExact(text, |Keywords|);
  }

  /** The `fl` alternative makes any text with those two letters in a row about federated learning. */
  lemma AnyFlMeansFederated(text: string)
    requires Contains(Lower(text), "fl")
    ensures FederatedTerm in ExtractConcepts(text)
  {
    assert "fl" in Keywords[1].alternatives;
    ExtractConceptsExact(text);
  }

  // ---------------------------------------------------------------------------
  // Slugs

  predicate IsSlugChar(c: char) { IsAsciiLower(c) || IsDigit(c) }

  /**
   * `replace(/[^a-z0-9]+/g, '-')`: each maximal run of other characters
   * becomes one `-`; `inRun` says that the run in progress already produced it.
   */
  function Dashify(s: string, inRun: bool): string {
    if s == [] then []
    else if IsSlugChar(s[0]) then [s[0]] + Dashify(s[1..], false)
    else if inRun then Dashify(s[1..], true)
    else ['-'] + Dashify(s[1..], true)
  }

  /** The slug of a citation key: lower-cased, runs of other characters collapsed to `-`. */
  function Slugify(key: string): string {
    Dashify(Lower(key), false)
  }

  /** The letters and digits of a string, in order. */
  function Alnum(s: string): string {
    if s == [] then [] else (if IsSlugChar(s[0]) then [s[0]] else []) + Alnum(s[1..])
  }

  predicate SlugShaped(r: string) {
    (forall i :: 0 <= i < |r| ==> IsSlugChar(r[i]) || r[i] == '-') &&
    (forall i :: 0 <= i < |r| - 1 ==> !(r[i] == '-' && r[i + 1] == '-'))
  }

  lemma {:induction false} DashifyShape(s: string, inRun: bool)
    ensures var r := Dashify(s, inRun);
      SlugShaped(r) && (inRun && r != [] ==> r[0] != '-') && (s != [] ==> r != [] || inRun)
    decreases |s|
  {
    if s != [] {
      DashifyShape(s[1..], !IsSlugChar(s[0]));
      var rest := Dashify(s[1..], !IsSlugChar(s[0]));
      if IsSlugChar(s[0]) || !inRun {
        var r := Dashify(s, inRun);
        assert r == [r[0]] + rest;
        assert forall i :: 1 <= i < |r| ==> r[i] == rest[i - 1];
      }
    }
  }

  lemma {:induction false} DashifyAlnum(s: string, inRun: bool)
    ensures Alnum(Dashify(s, inRun)) == Alnum(s)
    decreases |s|
  {
    if s != [] {
      DashifyAlnum(s[1..], !IsSlugChar(s[0]));
      var rest := Dashify(s[1..], !IsSlugChar(s[0]));
      if IsSlugChar(s[0]) || !inRun {
        var r := Dashify(s, inRun);
        assert r[1..] == rest;
      }
    }
  }

  /**
   * A slug holds only `[a-z0-9-]`, never `--`, is empty only for an empty
   * key, and keeps the key's lower-cased letters and digits in order.
   */
  lemma SlugifyShape(key: string)
    ensures SlugShaped(Slugify(key)) && (Slugify(key) == "" <==> key == "")
    ensures Alnum(Slugify(key)) == Alnum(Lower(key))
  {
    DashifyShape(Lower(key), false);
    DashifyAlnum(Lower(key), false);
  }

  /** A key that is already a lower-case alphanumeric word is its own slug. */
  lemma {:induction false} SlugOfAlnum(s: string)
    requires forall i :: 0 <= i < |s| ==> IsSlugChar(s[i])
    ensures Dashify(s, false) == s && Dashify(s, true) == s
    decreases |s|
  {
    if s != [] {
      SlugOfAlnum(s[1..]);
    }
  }

  /** `s || fallback` for a text value. */
  function OrDefault(s: string, fallback: string): string {
    if s != "" then s else fallback
  }
}
