/**
 * The RSA key-value document reader of the encryption service. A key is
 * stored as an XML document whose root element is `RSAKeyValue` (the
 * element of section 4.4.2.2 of W3C XML Signature Syntax and Processing,
 * which defines `Modulus` and `Exponent`, extended with the private-key
 * elements `P`, `Q`, `DP`, `DQ`, `InverseQ` and `D`). Each child element
 * carries its value as base 64 text.
 *
 * The document is modelled after XML parsing: the root element's name and
 * the sequence of its child nodes, each with its name and inner text.
 */
module RsaKeyXml {
  import opened Wrappers
  import opened Bytes
  import Base64

  /** The only root element name accepted. */
  const RootName: string := "RSAKeyValue"

  /** A child node of the root: its name and its inner text. Text and comment nodes appear with their node names. */
  datatype Node = Node(name: string, text: string)

  /** A parsed key document. */
  datatype Doc = Doc(rootName: string, children: seq<Node>)

  /** The eight slots of an RSA parameter record. */
  datatype Field = Modulus | Exponent | P | Q | DP | DQ | InverseQ | D

  /** An RSA parameter record; `None` is a null slot. */
  datatype RsaParameters = RsaParameters(
    modulus: Option<seq<byte>>,
    exponent: Option<seq<byte>>,
    p: Option<seq<byte>>,
    q: Option<seq<byte>>,
    dp: Option<seq<byte>>,
    dq: Option<seq<byte>>,
    inverseQ: Option<seq<byte>>,
    d: Option<seq<byte>>)

  /** Why a document is not a key. */
  datatype ParseError =
    | InvalidKeyFormat  // the root element is not `RSAKeyValue`
    | DecodeError       // a recognised element holds text that is not base 64

  /** The record a fresh parameter structure starts as: every slot null. */
  const Empty: RsaParameters := RsaParameters(None, None, None, None, None, None, None, None)

  /** The element name that carries a field. */
  function ElementName(f: Field): string {
    match f
    case Modulus => "Modulus"
    case Exponent => "Exponent"
    case P => "P"
    case Q => "Q"
    case DP => "DP"
    case DQ => "DQ"
    case InverseQ => "InverseQ"
    case D => "D"
  }

  /**
   * The field an element name selects, if any. Names are compared exactly
   * (case-sensitively); every other name selects nothing.
   */
  function FieldNamed(name: string): (r: Option<Field>)
    ensures r.Some? ==> ElementName(r.value) == name
    ensures r.None? ==> forall f: Field :: ElementName(f) != name
  {
    if name == "Modulus" then Some(Modulus)
    else if name == "Exponent" then Some(Exponent)
    else if name == "P" then Some(P)
    else if name == "Q" then Some(Q)
    else if name == "DP" then Some(DP)
    else if name == "DQ" then Some(DQ)
    else if name == "InverseQ" then Some(InverseQ)
    else if name == "D" then Some(D)
    else None
  }

  /** Every field is selected by its own element name and by no other. */
  lemma FieldNamedElementName(f: Field)
    ensures FieldNamed(ElementName(f)) == Some(f)
  {
  }

  /** The value of one slot. */
  function Get(params: RsaParameters, f: Field): Option<seq<byte>> {
    match f
    case Modulus => params.modulus
    case Exponent => params.exponent
    case P => params.p
    case Q => params.q
    case DP => params.dp
    case DQ => params.dq
    case InverseQ => params.inverseQ
    case D => params.d
  }

  /** The record with one slot replaced and every other slot as it was. */
  function Set(params: RsaParameters, f: Field, v: Option<seq<byte>>): (r: RsaParameters)
    ensures Get(r, f) == v
    ensures forall g: Field :: g != f ==> Get(r, g) == Get(params, g)
  {
    match f
    case Modulus => params.(modulus := v)
    case Exponent => params.(exponent := v)
    case P => params.(p := v)
    case Q => params.(q := v)
    case DP => params.(dp := v)
    case DQ => params.(dq := v)
    case InverseQ => params.(inverseQ := v)
    case D => params.(d := v)
  }

  /** Two records that agree on every slot are the same record. */
  lemma Extensionality(a: RsaParameters, b: RsaParameters)
    requires forall f: Field :: Get(a, f) == Get(b, f)
    ensures a == b
  {
    assert Get(a, Modulus) == Get(b, Modulus);
    assert Get(a, Exponent) == Get(b, Exponent);
    assert Get(a, P) == Get(b, P);
    assert Get(a, Q) == Get(b, Q);
    assert Get(a, DP) == Get(b, DP);
    assert Get(a, DQ) == Get(b, DQ);
    assert Get(a, InverseQ) == Get(b, InverseQ);
    assert Get(a, D) == Get(b, D);
  }

  /**
   * The value of a recognised element: empty text is a null slot, other
   * text is its base 64 decoding, which is then never empty.
   */
  function DecodeText(text: string): (r: Result<Option<seq<byte>>, ParseError>)
    ensures r == Success(None) <==> text == ""
    ensures r.Success? <==> text == "" || Base64.WellFormed(text)
    ensures r.Success? && text != "" ==> r.value == Some(Base64.Decode(text).value)
    ensures r.Success? && r.value.Some? ==> |r.value.value| > 0
    ensures r.Failure? ==> r.error == DecodeError
  {
    if |text| == 0 then Success(None)
    else
      match Base64.Decode(text)
      case Success(bytes) =>
        Base64.DecodeNonEmpty(text);
        Success(Some(bytes))
      case Failure(_) => Failure(DecodeError)
  }

  /** A child the reader can consume: unrecognised, or recognised with decodable text. */
  predicate Acceptable(n: Node) {
    FieldNamed(n.name).None? || DecodeText(n.text).Success?
  }

  /**
   * One pass of the loop over the root's children. A recognised element
   * replaces its own slot and no other; any other node changes nothing.
   */
  function ReadChild(params: RsaParameters, n: Node): (r: Result<RsaParameters, ParseError>)
    ensures FieldNamed(n.name).None? ==> r == Success(params)
    ensures r.Success? <==> Acceptable(n)
    ensures r.Failure? ==> r.error == DecodeError
    ensures FieldNamed(n.name).Some? && r.Success? ==>
      && Get(r.value, FieldNamed(n.name).value) == DecodeText(n.text).value
      && forall g: Field :: g != FieldNamed(n.name).value ==> Get(r.value, g) == Get(params, g)
  {
    match FieldNamed(n.name)
    case None => Success(params)
    case Some(f) =>
      match DecodeText(n.text)
      case Success(v) => Success(Set(params, f, v))
      case Failure(e) => Failure(e)
  }

  /** The loop over the children, in document order; the first failure aborts it. */
  function ReadChildren(params: RsaParameters, children: seq<Node>): (r: Result<RsaParameters, ParseError>)
    ensures r.Failure? ==> r.error == DecodeError
    decreases |children|
  {
    if |children| == 0 then Success(params)
    else
      match ReadChildren(params, children[..|children| - 1])
      case Failure(e) => Failure(e)
      case Success(before) => ReadChild(before, children[|children| - 1])
  }

  /**
   * Reads the RSA parameters out of a key document. A root with any other
   * name than `RSAKeyValue` is rejected before any child is looked at.
   */
  function ParseXmlString(doc: Doc): (r: Result<RsaParameters, ParseError>)
    ensures r == Failure(InvalidKeyFormat) <==> doc.rootName != RootName
    ensures r.Failure? && doc.rootName == RootName ==> r.error == DecodeError
  {
    if doc.rootName == RootName then ReadChildren(Empty, doc.children)
    else Failure(InvalidKeyFormat)
  }

  // ---------------------------------------------------------------------
  // Which element decides a slot
  // ---------------------------------------------------------------------

  /** The position of the last child that names a field, if there is one. */
  function LastNamed(children: seq<Node>, f: Field): (r: Option<nat>)
    ensures r.Some? ==>
      && r.value < |children|
      && FieldNamed(children[r.value].name) == Some(f)
      && forall j :: r.value < j < |children| ==> FieldNamed(children[j].name) != Some(f)
    ensures r.None? ==> forall j :: 0 <= j < |children| ==> FieldNamed(children[j].name) != Some(f)
    decreases |children|
  {
    if |children| == 0 then None
    else if FieldNamed(children[|children| - 1].name) == Some(f) then Some(|children| - 1)
    else
      var init := children[..|children| - 1];
      assert forall j :: 0 <= j < |init| ==> init[j] == children[j];
      LastNamed(init, f)
  }

  /** A child is the last to name its field exactly when no later child names it. */
  lemma LastNamedIs(children: seq<Node>, f: Field, k: nat)
    requires k < |children| && FieldNamed(children[k].name) == Some(f)
    requires forall j :: k < j < |children| ==> FieldNamed(children[j].name) != Some(f)
    ensures LastNamed(children, f) == Some(k)
  {
  }

  /** When no child names a field, no last child names it. */
  lemma LastNamedNone(children: seq<Node>, f: Field)
    requires forall j :: 0 <= j < |children| ==> FieldNamed(children[j].name) != Some(f)
    ensures LastNamed(children, f) == None
  {
  }

  /** The children are read successfully exactly when every one of them is acceptable. */
  lemma {:induction false} ReadChildrenSucceeds(params: RsaParameters, children: seq<Node>)
    ensures ReadChildren(params, children).Success? <==> forall i :: 0 <= i < |children| ==> Acceptable(children[i])
    decreases |children|
  {
    if |children| > 0 {
      var init, last := children[..|children| - 1], children[|children| - 1];
      ReadChildrenSucceeds(params, init);
      AllSplit(children, init, Acceptable);
      if ReadChildren(params, init).Success? {
        assert ReadChildren(params, children) == ReadChild(ReadChildren(params, init).value, last);
      }
    }
  }

  /** A property holds of every element exactly when it holds of all but the last, and of the last. */
  lemma AllSplit<T>(s: seq<T>, init: seq<T>, p: T -> bool)
    requires |s| > 0 && init == s[..|s| - 1]
    ensures (forall i :: 0 <= i < |s| ==> p(s[i])) <==>
      (forall i :: 0 <= i < |init| ==> p(init[i])) && p(s[|s| - 1])
  {
    assert forall i :: 0 <= i < |init| ==> init[i] == s[i];
  }

  /**
   * After a successful read, a slot holds the decoded text of the last child
   * naming it, or what it held before when no child names it.
   */
  lemma {:induction false} ReadChildrenSlot(params: RsaParameters, children: seq<Node>, f: Field)
    requires ReadChildren(params, children).Success?
    ensures match LastNamed(children, f)
      case None => Get(ReadChildren(params, children).value, f) == Get(params, f)
      case Some(i) => DecodeText(children[i].text) == Success(Get(ReadChildren(params, children).value, f))
    decreases |children|
  {
    if |children| > 0 {
      var init := children[..|children| - 1];
      var last := children[|children| - 1];
      assert ReadChildren(params, init).Success?;
      var before := ReadChildren(params, init).value;
      var after := ReadChildren(params, children).value;
      assert ReadChildren(params, children) == ReadChild(before, last);
      ReadChildrenSlot(params, init, f);
      if FieldNamed(last.name) == Some(f) {
        assert LastNamed(children, f) == Some(|children| - 1);
        assert DecodeText(last.text) == Success(Get(after, f));
      } else {
        assert Get(after, f) == Get(before, f);
        assert LastNamed(children, f) == LastNamed(init, f);
        if LastNamed(init, f).Some? {
          var i := LastNamed(init, f).value;
          assert init[i] == children[i];
        }
      }
    }
  }

  /** Parsing succeeds exactly on an `RSAKeyValue` root whose children are all acceptable. */
  lemma ParseSucceeds(doc: Doc)
    ensures ParseXmlString(doc).Success? <==>
      doc.rootName == RootName && forall i :: 0 <= i < |doc.children| ==> Acceptable(doc.children[i])
  {
    ReadChildrenSucceeds(Empty, doc.children);
  }

  /**
   * A recognised element that occurs more than once: the last occurrence in
   * document order decides the slot.
   */
  lemma LastOccurrenceWins(doc: Doc, f: Field, i: nat)
    requires ParseXmlString(doc).Success?
    requires i < |doc.children| && FieldNamed(doc.children[i].name) == Some(f)
    requires forall j :: i < j < |doc.children| ==> FieldNamed(doc.children[j].name) != Some(f)
    ensures DecodeText(doc.children[i].text) == Success(Get(ParseXmlString(doc).value, f))
  {
    ReadChildrenSlot(Empty, doc.children, f);
    LastNamedIs(doc.children, f, i);
  }

  /** A slot no child names stays null. */
  lemma UnnamedFieldAbsent(doc: Doc, f: Field)
    requires ParseXmlString(doc).Success?
    requires forall j :: 0 <= j < |doc.children| ==> FieldNamed(doc.children[j].name) != Some(f)
    ensures Get(ParseXmlString(doc).value, f) == None
  {
    ReadChildrenSlot(Empty, doc.children, f);
    LastNamedNone(doc.children, f);
  }

  /** A successfully read slot is null or holds at least one octet, never zero octets. */
  lemma NoEmptySlot(doc: Doc, f: Field)
    requires ParseXmlString(doc).Success?
    ensures Get(ParseXmlString(doc).value, f) != Some([])
  {
    ReadChildrenSlot(Empty, doc.children, f);
  }

  // ---------------------------------------------------------------------
  // Nodes that do not matter, and order
  // ---------------------------------------------------------------------

  /** Reading a concatenation is reading the first part, then the second. */
  lemma {:induction false} ReadChildrenAppend(params: RsaParameters, a: seq<Node>, b: seq<Node>)
    ensures ReadChildren(params, a + b) ==
      match ReadChildren(params, a)
      case Failure(e) => Failure(e)
      case Success(mid) => ReadChildren(mid, b)
    decreases |b|
  {
    if |b| == 0 {
      assert a + b == a;
    } else {
      var b' := b[..|b| - 1];
      ReadChildrenAppend(params, a, b');
      assert (a + b)[..|a + b| - 1] == a + b';
      assert (a + b)[|a + b| - 1] == b[|b| - 1];
    }
  }

  /** A child whose name selects no field, be it an unknown element, text or a comment, can be dropped. */
  lemma UnrecognisedChildIgnored(root: string, before: seq<Node>, n: Node, after: seq<Node>)
    requires FieldNamed(n.name).None?
    ensures ParseXmlString(Doc(root, before + [n] + after)) == ParseXmlString(Doc(root, before + after))
  {
    ReadChildrenAppend(Empty, before + [n], after);
    ReadChildrenAppend(Empty, before, [n]);
    ReadChildrenAppend(Empty, before, after);
    assert [n][..0] == [];
  }

  /** No two children name the same field. */
  predicate DistinctFields(children: seq<Node>) {
    forall i, j :: 0 <= i < j < |children| && FieldNamed(children[i].name).Some? ==>
      FieldNamed(children[i].name) != FieldNamed(children[j].name)
  }

  /** When no field is named twice, the order of the children does not matter. */
  lemma OrderIrrelevant(root: string, a: seq<Node>, b: seq<Node>)
    requires multiset(a) == multiset(b)
    requires DistinctFields(a)
    ensures ParseXmlString(Doc(root, a)) == ParseXmlString(Doc(root, b))
  {
    if root == RootName {
      ParseSucceeds(Doc(root, a));
      ParseSucceeds(Doc(root, b));
      SameElements(a, b);
      var allA := forall i :: 0 <= i < |a| ==> Acceptable(a[i]);
      var allB := forall j :: 0 <= j < |b| ==> Acceptable(b[j]);
      assert allA <==> allB by {
        if allA {
          forall j | 0 <= j < |b| ensures Acceptable(b[j]) {
            assert b[j] in a;
          }
        }
        if allB {
          forall i | 0 <= i < |a| ensures Acceptable(a[i]) {
            assert a[i] in b;
          }
        }
      }
      if allA {
        var ra := ParseXmlString(Doc(root, a)).value;
        var rb := ParseXmlString(Doc(root, b)).value;
        forall f: Field ensures Get(ra, f) == Get(rb, f) {
          SlotAgrees(Doc(root, a), Doc(root, b), f);
        }
        Extensionality(ra, rb);
      }
    }
  }

  /** Permutations hold the same elements. */
  lemma SameElements(a: seq<Node>, b: seq<Node>)
    requires multiset(a) == multiset(b)
    ensures forall n :: n in a <==> n in b
  {
    forall n ensures n in a <==> n in b {
      assert n in a <==> n in multiset(a);
      assert n in b <==> n in multiset(b);
    }
  }

  /** One slot of two successful reads of permuted children, the first without repeated fields. */
  lemma SlotAgrees(da: Doc, db: Doc, f: Field)
    requires da.rootName == RootName && db.rootName == RootName
    requires ParseXmlString(da).Success? && ParseXmlString(db).Success?
    requires forall n :: n in da.children <==> n in db.children
    requires DistinctFields(da.children)
    ensures Get(ParseXmlString(da).value, f) == Get(ParseXmlString(db).value, f)
  {
    var a, b := da.children, db.children;
    ReadChildrenSlot(Empty, a, f);
    ReadChildrenSlot(Empty, b, f);
    if LastNamed(b, f).Some? {
      var j := LastNamed(b, f).value;
      assert b[j] in a;
      var i :| 0 <= i < |a| && a[i] == b[j];
      LastNamedIs(a, f, i);
    } else {
      forall i | 0 <= i < |a| ensures FieldNamed(a[i].name) != Some(f) {
        assert a[i] in b;
      }
      LastNamedNone(a, f);
    }
  }

  // ---------------------------------------------------------------------
  // Documents in the shape the platform exports
  // ---------------------------------------------------------------------

  /** The order in which the platform writes the elements of a key. */
  function ExportOrder(k: nat): Field
    requires k < 8
  {
    if k == 0 then Modulus else if k == 1 then Exponent else if k == 2 then P else if k == 3 then Q
    else if k == 4 then DP else if k == 5 then DQ else if k == 6 then InverseQ else D
  }

  /** The position of a field in the export order. */
  function ExportIndex(f: Field): (k: nat)
    ensures k < 8 && ExportOrder(k) == f
    ensures forall j :: 0 <= j < 8 && j != k ==> ExportOrder(j) != f
  {
    match f
    case Modulus => 0
    case Exponent => 1
    case P => 2
    case Q => 3
    case DP => 4
    case DQ => 5
    case InverseQ => 6
    case D => 7
  }

  /** The child element for one slot: its base 64 text, or empty text for a null slot. */
  function ElementFor(params: RsaParameters, f: Field): (n: Node)
    ensures FieldNamed(n.name) == Some(f)
  {
    FieldNamedElementName(f);
    match Get(params, f)
    case None => Node(ElementName(f), "")
    case Some(bytes) => Node(ElementName(f), Base64.Encode(bytes))
  }

  /**
   * A key document in the export layout: `Modulus` and `Exponent`, followed
   * for a private key by `P`, `Q`, `DP`, `DQ`, `InverseQ` and `D`.
   */
  function KeyDocument(params: RsaParameters, includePrivate: bool): (doc: Doc)
    ensures doc.rootName == RootName
    ensures |doc.children| == (if includePrivate then 8 else 2)
    ensures forall k :: 0 <= k < |doc.children| ==> doc.children[k] == ElementFor(params, ExportOrder(k))
  {
    Doc(RootName, seq(if includePrivate then 8 else 2, k requires 0 <= k < 8 => ElementFor(params, ExportOrder(k))))
  }

  /** No slot holds zero octets (a zero-octet value has no non-empty base 64 text). */
  predicate NoEmptyValues(params: RsaParameters) {
    forall f: Field :: Get(params, f) != Some([])
  }

  /** The public half of a record: `Modulus` and `Exponent` only. */
  function PublicPart(params: RsaParameters): (r: RsaParameters)
    ensures Get(r, Modulus) == Get(params, Modulus) && Get(r, Exponent) == Get(params, Exponent)
    ensures forall f: Field :: f != Modulus && f != Exponent ==> Get(r, f) == None
  {
    Empty.(modulus := params.modulus, exponent := params.exponent)
  }

  /** One exported element reads back as the slot it was written from. */
  lemma ElementForReadsBack(params: RsaParameters, f: Field)
    requires Get(params, f) != Some([])
    ensures DecodeText(ElementFor(params, f).text) == Success(Get(params, f))
  {
    if Get(params, f).Some? {
      var bytes := Get(params, f).value;
      Base64.DecodeEncode(bytes);
    }
  }

  /**
   * Export and read-back agree: a private-key document reads back as the
   * full record, a public-key document as its public half.
   */
  lemma KeyDocumentRoundTrip(params: RsaParameters, includePrivate: bool)
    requires NoEmptyValues(params)
    ensures ParseXmlString(KeyDocument(params, includePrivate)) ==
      Success(if includePrivate then params else PublicPart(params))
  {
    var c := KeyDocument(params, includePrivate).children;
    var want := if includePrivate then params else PublicPart(params);
    ReadChildrenSucceeds(Empty, c);
    forall i | 0 <= i < |c| ensures Acceptable(c[i]) {
      ElementForReadsBack(params, ExportOrder(i));
    }
    var r := ReadChildren(Empty, c).value;
    forall f: Field ensures Get(r, f) == Get(want, f) {
      ReadChildrenSlot(Empty, c, f);
      var k := ExportIndex(f);
      if k < |c| {
        LastNamedIs(c, f, k);
        ElementForReadsBack(params, f);
      } else {
        LastNamedNone(c, f);
      }
    }
    Extensionality(r, want);
  }
}
