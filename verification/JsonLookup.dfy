/**
 Values that `oc_rep_to_json_format` looks up again before it prints them: by a key that ends at the
 first NUL of the member's name, and by kind, in the list from the member on.
 */
module JsonLookup {
  import opened CStrings
  import opened JsonText
  import opened Octets

  /** Before printing these, the source looks the value up by name and kind, from the member on. */
  predicate LookedUp(v: Value) {
    v.Blob? || v.IntArray? || v.FloatArray? || v.DoubleArray? || v.BoolArray? || v.BlobArray? || v.StrArray?
  }

  predicate SameKind(v: Value, w: Value) {
    || (v.Blob? && w.Blob?)
    || (v.IntArray? && w.IntArray?)
    || (v.FloatArray? && w.FloatArray?)
    || (v.DoubleArray? && w.DoubleArray?)
    || (v.BoolArray? && w.BoolArray?)
    || (v.BlobArray? && w.BlobArray?)
    || (v.StrArray? && w.StrArray?)
  }

  predicate Answers(rep: Rep, key: seq<byte>, kind: Value)
    requires rep.Member?
  {
    rep.name == key && SameKind(rep.value, kind)
  }

  /** `oc_rep_get_value`: the first member that answers, or the end. */
  function FindMember(rep: Rep, key: seq<byte>, kind: Value): (found: Rep)
    ensures found.Member? ==> Answers(found, key, kind)
  {
    if rep == End || Answers(rep, key, kind) then rep else FindMember(rep.next, key, kind)
  }

  /** What an array is printed as when nothing is found: its size was set to 0 before. */
  function Emptied(v: Value): Value {
    match v
    case IntArray(_) => IntArray([])
    case FloatArray(_) => FloatArray([])
    case DoubleArray(_) => DoubleArray([])
    case BoolArray(_) => BoolArray([])
    case BlobArray(_) => BlobArray([])
    case StrArray(_) => StrArray([])
    case _ => v
  }

  /** The value that is printed for a member: the name is cut at its first NUL for the search. */
  function ValueFound(rep: Rep): (v: Value)
    requires rep.Member? && LookedUp(rep.value)
    ensures SameKind(v, rep.value)
  {
    var found := FindMember(rep, CString(rep.name, NUL), rep.value);
    if found == End then Emptied(rep.value) else found.value
  }

  /** The representation with every value as it is found. */
  function AsFound(rep: Rep): (found: Rep)
    ensures found == End <==> rep == End
  {
    if rep == End then End
    else
      var value := if LookedUp(rep.value) then ValueFound(rep) else InsideFound(rep.value);
      Member(rep.name, rep.iname, value, AsFound(rep.next))
  }

  function InsideFound(v: Value): Value {
    match v
    case Object(members) => Object(AsFound(members))
    case MixedArray(elements) => MixedArray(AsFound(elements))
    case ObjectArray(objects) => ObjectArray(ObjectsFound(objects))
    case _ => v
  }

  function ObjectsFound(os: Objects): Objects {
    match os
    case Last(item) => Last(AsFound(item))
    case More(item, rest) => More(AsFound(item), ObjectsFound(rest))
  }

  predicate BlobFound(rep: Rep)
    requires rep.Member?
  {
    rep.value.Blob? ==> FindMember(rep, CString(rep.name, NUL), rep.value).Member?
  }

  /** The outermost brackets are the same. */
  lemma TopArrayFound(rep: Rep)
    ensures IsTopArray(AsFound(rep)) <==> IsTopArray(rep)
  {
  }

  /** No byte string is looked up in vain, which would leave its size unset. */
  predicate BlobsFound(rep: Rep) {
    rep == End ||
    (BlobFound(rep) && BlobsInside(rep.value) && BlobsFound(rep.next))
  }

  predicate BlobsInside(v: Value) {
    match v
    case Object(members) => BlobsFound(members)
    case MixedArray(elements) => BlobsFound(elements)
    case ObjectArray(objects) => BlobsInObjects(objects)
    case _ => true
  }

  predicate BlobsInObjects(os: Objects) {
    BlobsFound(os.item) && (os.More? ==> BlobsInObjects(os.rest))
  }

  // ----- which member is found

  /** What is left of the list after `i` members. */
  function Rest(rep: Rep, i: nat): Rep {
    if i == 0 || rep == End then rep else Rest(rep.next, i - 1)
  }

  /** The member at `i` has that name, and a value of the same one of the seven kinds that are looked up. */
  predicate AnswersAt(rep: Rep, key: seq<byte>, kind: Value, i: nat) {
    var m := Rest(rep, i);
    m.Member? && m.name == key && LookedUp(kind)
    && m.value.Blob? == kind.Blob? && m.value.IntArray? == kind.IntArray? && m.value.FloatArray? == kind.FloatArray?
    && m.value.DoubleArray? == kind.DoubleArray? && m.value.BoolArray? == kind.BoolArray?
    && m.value.BlobArray? == kind.BlobArray? && m.value.StrArray? == kind.StrArray?
  }

  lemma AnswersMeans(rep: Rep, key: seq<byte>, kind: Value)
    requires rep.Member? && LookedUp(kind)
    ensures Answers(rep, key, kind) <==> AnswersAt(rep, key, kind, 0)
  {
  }

  /** The search finds the first member that answers, and none if none does. */
  lemma {:induction false} FindsFirst(rep: Rep, key: seq<byte>, kind: Value, i: nat)
    requires LookedUp(kind) && forall j: nat | j < i :: !AnswersAt(rep, key, kind, j)
    requires Rest(rep, i) == End || AnswersAt(rep, key, kind, i)
    ensures FindMember(rep, key, kind) == Rest(rep, i)
    decreases rep
  {
    hide Answers, LookedUp;
    if rep != End {
      AnswersMeans(rep, key, kind);
      if i > 0 {
        assert !AnswersAt(rep, key, kind, 0);
        forall j: nat | j < i - 1 ensures !AnswersAt(rep.next, key, kind, j) {
          assert !AnswersAt(rep, key, kind, j + 1);
        }
        FindsFirst(rep.next, key, kind, i - 1);
      }
    }
  }

  /** A name without a NUL finds its own member, and no other does. */
  lemma FindsItself(rep: Rep)
    requires rep.Member? && LookedUp(rep.value)
    ensures FindMember(rep, CString(rep.name, NUL), rep.value) == rep <==> NUL !in rep.name
  {
    var found := FindMember(rep, CString(rep.name, NUL), rep.value);
    if NUL in rep.name { assert found.Member? ==> found.name != rep.name; }
  }

  /** No value that is looked up has a NUL in its name. */
  predicate PlainlyNamed(rep: Rep) {
    rep == End || ((LookedUp(rep.value) ==> NUL !in rep.name) && PlainlyInside(rep.value) && PlainlyNamed(rep.next))
  }

  predicate PlainlyInside(v: Value) {
    match v
    case Object(members) => PlainlyNamed(members)
    case MixedArray(elements) => PlainlyNamed(elements)
    case ObjectArray(objects) => ObjectsPlainlyNamed(objects)
    case _ => true
  }

  predicate ObjectsPlainlyNamed(os: Objects) {
    PlainlyNamed(os.item) && (os.More? ==> ObjectsPlainlyNamed(os.rest))
  }

  /** Then what is printed is the representation itself. */
  lemma {:induction false} PlainlyNamedIsFound(rep: Rep)
    requires PlainlyNamed(rep)
    ensures AsFound(rep) == rep && BlobsFound(rep)
  {
    if rep != End {
      PlainlyNamedIsFound(rep.next);
      if LookedUp(rep.value) { FindsItself(rep); } else { InsideIsFound(rep.value); }
    }
  }

  lemma {:induction false} InsideIsFound(v: Value)
    requires PlainlyInside(v)
    ensures InsideFound(v) == v && BlobsInside(v)
  {
    match v
    case Object(members) => PlainlyNamedIsFound(members);
    case MixedArray(elements) => PlainlyNamedIsFound(elements);
    case ObjectArray(objects) => ObjectsAreFound(objects);
    case _ =>
  }

  lemma {:induction false} ObjectsAreFound(os: Objects)
    requires ObjectsPlainlyNamed(os)
    ensures ObjectsFound(os) == os && BlobsInObjects(os)
  {
    PlainlyNamedIsFound(os.item);
    if os.More? { ObjectsAreFound(os.rest); }
  }

  /** `{"a\0": [1], "a": [2]}` is printed as if it were `{"a": [2], "a": [2]}`. */
  lemma NulFindsAnother()
    ensures
      var second := Member([97], -1, IntArray([2]), End);
      ValueFound(Member([97, 0], -1, IntArray([1]), second)) == IntArray([2])
  {
    var second := Member([97], -1, IntArray([2]), End);
    var first := Member([97, 0], -1, IntArray([1]), second);
    assert CString(first.name, NUL) == [97];
  }
}
