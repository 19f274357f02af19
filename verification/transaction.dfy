/** Transactions: the builder that assembles one from optional fields, the
    field-by-field validation of a decoded map, the all-zero default and the
    byte layout that is hashed to identify a transaction. */
module Transaction {
  import opened Wrappers
  import opened Bytes
  import opened TreeHasher

  const SignatureLength: nat := 64

  type Signature = s: Bytes | |s| == SignatureLength witness seq(64, _ => 0)

  /** Amount and nonce are `u64`s, held as 64-bit words. */
  datatype Transaction = Transaction(from: Bytes32, to: Bytes32, amount: bv64, nonce: bv64, signature: Signature)

  /** The all-zero transaction (`Default`). */
  function Default(): (tx: Transaction)
    ensures forall i | 0 <= i < DigestLength :: tx.from[i] == 0 && tx.to[i] == 0
    ensures tx.amount == 0 && tx.nonce == 0
    ensures forall i | 0 <= i < SignatureLength :: tx.signature[i] == 0
  {
    Transaction(Zeros(32), Zeros(32), 0, 0, Zeros(64))
  }

  // ---------------------------------------------------------------------
  // Builder
  // ---------------------------------------------------------------------

  datatype Builder = Builder(
    from: Option<Bytes32>,
    to: Option<Bytes32>,
    amount: Option<bv64>,
    nonce: Option<bv64>,
    signature: Option<Signature>)

  /** A builder with no field set. */
  function NewBuilder(): (b: Builder)
    ensures b.from.None? && b.to.None? && b.amount.None? && b.nonce.None? && b.signature.None?
  {
    Builder(None, None, None, None, None)
  }

  function WithFrom(b: Builder, from: Bytes32): (r: Builder)
    ensures r.from == Some(from)
    ensures r.to == b.to && r.amount == b.amount && r.nonce == b.nonce && r.signature == b.signature
  {
    b.(from := Some(from))
  }

  function WithTo(b: Builder, to: Bytes32): (r: Builder)
    ensures r.to == Some(to)
    ensures r.from == b.from && r.amount == b.amount && r.nonce == b.nonce && r.signature == b.signature
  {
    b.(to := Some(to))
  }

  function WithAmount(b: Builder, amount: bv64): (r: Builder)
    ensures r.amount == Some(amount)
    ensures r.from == b.from && r.to == b.to && r.nonce == b.nonce && r.signature == b.signature
  {
    b.(amount := Some(amount))
  }

  function WithNonce(b: Builder, nonce: bv64): (r: Builder)
    ensures r.nonce == Some(nonce)
    ensures r.from == b.from && r.to == b.to && r.amount == b.amount && r.signature == b.signature
  {
    b.(nonce := Some(nonce))
  }

  function WithSignature(b: Builder, signature: Signature): (r: Builder)
    ensures r.signature == Some(signature)
    ensures r.from == b.from && r.to == b.to && r.amount == b.amount && r.nonce == b.nonce
  {
    b.(signature := Some(signature))
  }

  /** The transaction of a builder whose five fields are all set; otherwise
      the message naming the first missing field, in the order from, to,
      amount, nonce, signature. */
  function Build(b: Builder): (r: Result<Transaction, string>)
    ensures r.Success? <==>
      b.from.Some? && b.to.Some? && b.amount.Some? && b.nonce.Some? && b.signature.Some?
    ensures r.Success? ==>
      Some(r.value.from) == b.from && Some(r.value.to) == b.to && Some(r.value.amount) == b.amount
      && Some(r.value.nonce) == b.nonce && Some(r.value.signature) == b.signature
    ensures b.from.None? ==> r == Failure("Sender address is missing")
    ensures b.from.Some? && b.to.None? ==> r == Failure("Recipient address is missing")
    ensures b.from.Some? && b.to.Some? && b.amount.None? ==> r == Failure("Amount is missing")
    ensures b.from.Some? && b.to.Some? && b.amount.Some? && b.nonce.None? ==> r == Failure("Nonce is missing")
    ensures b.from.Some? && b.to.Some? && b.amount.Some? && b.nonce.Some? && b.signature.None?
            ==> r == Failure("Signature is missing")
  {
    if b.from.None? then Failure("Sender address is missing")
    else if b.to.None? then Failure("Recipient address is missing")
    else if b.amount.None? then Failure("Amount is missing")
    else if b.nonce.None? then Failure("Nonce is missing")
    else if b.signature.None? then Failure("Signature is missing")
    else Success(Transaction(b.from.value, b.to.value, b.amount.value, b.nonce.value, b.signature.value))
  }

  /** The builder chain that sets every field of `tx`. */
  function BuilderOf(tx: Transaction): Builder
  {
    WithSignature(WithNonce(WithAmount(WithTo(WithFrom(NewBuilder(), tx.from), tx.to), tx.amount), tx.nonce), tx.signature)
  }

  /** Setting all five fields builds exactly the transaction they describe,
      and every builder that builds is that chain for its result. */
  lemma BuildRoundTrip(tx: Transaction, b: Builder)
    ensures Build(BuilderOf(tx)) == Success(tx)
    ensures Build(b).Success? ==> BuilderOf(Build(b).value) == b
  {
  }

  /** A new builder reports the sender first. */
  lemma EmptyBuilderMissesSender()
    ensures Build(NewBuilder()) == Failure("Sender address is missing")
  {
  }

  /** Setters on different fields commute, and a second call of a setter
      replaces the first. */
  lemma SettersCommute(b: Builder, from: Bytes32, to: Bytes32, from2: Bytes32, amount: bv64, nonce: bv64, signature: Signature)
    ensures WithTo(WithFrom(b, from), to) == WithFrom(WithTo(b, to), from)
    ensures WithNonce(WithAmount(b, amount), nonce) == WithAmount(WithNonce(b, nonce), amount)
    ensures WithSignature(WithFrom(b, from), signature) == WithFrom(WithSignature(b, signature), from)
    ensures WithFrom(WithFrom(b, from), from2) == WithFrom(b, from2)
  {
  }

  // ---------------------------------------------------------------------
  // Field-by-field validation of a decoded map
  // ---------------------------------------------------------------------

  datatype Field = FromField | ToField | AmountField | NonceField | SignatureField

  /** The field names a transaction map may use. */
  const FieldNames: seq<string> := ["from", "to", "amount", "nonce", "signature"]

  function Name(f: Field): (name: string)
    ensures name in FieldNames
  {
    match f
    case FromField => "from"
    case ToField => "to"
    case AmountField => "amount"
    case NonceField => "nonce"
    case SignatureField => "signature"
  }

  /** The errors the decoder reports. `InvalidValue` stands for whatever the
      underlying format reports for a value of the wrong shape. */
  datatype DecodeError =
    | UnknownField(name: string)
    | DuplicateField(field: string)
    | MissingField(field: string)
    | InvalidLength(length: nat)
    | InvalidValue(field: string)

  /** A map value as the underlying format presents it: a byte string or
      an unsigned 64-bit number. */
  datatype Value = Blob(bytes: Bytes) | Number(n: bv64)

  /** Decodes a map key into a field. */
  function VisitStr(value: string): (r: Result<Field, DecodeError>)
    ensures r.Success? <==> value in FieldNames
    ensures r.Success? ==> Name(r.value) == value
    ensures r.Failure? ==> r.error == UnknownField(value)
  {
    match value
    case "from" => Success(FromField)
    case "to" => Success(ToField)
    case "amount" => Success(AmountField)
    case "nonce" => Success(NonceField)
    case "signature" => Success(SignatureField)
    case _ => Failure(UnknownField(value))
  }

  /** Every field's name decodes to that field. */
  lemma VisitStrReadsName(f: Field)
    ensures VisitStr(Name(f)) == Success(f)
  {
  }

  /** The fields read so far; the signature is kept at whatever length it
      came in, to be checked once the map is exhausted. */
  datatype Seen = Seen(
    from: Option<Bytes32>,
    to: Option<Bytes32>,
    amount: Option<bv64>,
    nonce: Option<bv64>,
    signature: Option<Bytes>)

  const NothingSeen := Seen(None, None, None, None, None)

  predicate Has(s: Seen, f: Field)
  {
    match f
    case FromField => s.from.Some?
    case ToField => s.to.Some?
    case AmountField => s.amount.Some?
    case NonceField => s.nonce.Some?
    case SignatureField => s.signature.Some?
  }

  /** The value read for field `f`, as the map presented it, or `None`
      while the field is unread. */
  function Stored(s: Seen, f: Field): Option<Value>
  {
    match f
    case FromField => if s.from.Some? then Some(Blob(s.from.value)) else None
    case ToField => if s.to.Some? then Some(Blob(s.to.value)) else None
    case AmountField => if s.amount.Some? then Some(Number(s.amount.value)) else None
    case NonceField => if s.nonce.Some? then Some(Number(s.nonce.value)) else None
    case SignatureField => if s.signature.Some? then Some(Blob(s.signature.value)) else None
  }

  /** Whether `v` has the shape field `f` takes: addresses are 32-byte
      blobs, amount and nonce numbers, the signature a blob of any
      length. */
  predicate Fits(f: Field, v: Value)
  {
    match f
    case FromField => v.Blob? && |v.bytes| == DigestLength
    case ToField => v.Blob? && |v.bytes| == DigestLength
    case AmountField => v.Number?
    case NonceField => v.Number?
    case SignatureField => v.Blob?
  }

  /** Reads the value of field `f` into `s`, leaving every other field as
      it was. */
  function Read(s: Seen, f: Field, v: Value): (r: Result<Seen, DecodeError>)
    ensures r.Success? <==> Fits(f, v)
    ensures r.Failure? ==> r.error == InvalidValue(Name(f))
    ensures r.Success? ==> Has(r.value, f)
    ensures r.Success? ==> forall g: Field | g != f :: Has(r.value, g) == Has(s, g)
    ensures r.Success? ==> Stored(r.value, f) == Some(v)
    ensures r.Success? ==> forall g: Field | g != f :: Stored(r.value, g) == Stored(s, g)
    ensures r.Success? ==>
      (if f == FromField then v == Blob(r.value.from.value) else r.value.from == s.from)
      && (if f == ToField then v == Blob(r.value.to.value) else r.value.to == s.to)
      && (if f == AmountField then v == Number(r.value.amount.value) else r.value.amount == s.amount)
      && (if f == NonceField then v == Number(r.value.nonce.value) else r.value.nonce == s.nonce)
      && (if f == SignatureField then v == Blob(r.value.signature.value) else r.value.signature == s.signature)
  {
    if !Fits(f, v) then Failure(InvalidValue(Name(f)))
    else
      match f
      case FromField => Success(s.(from := Some(v.bytes)))
      case ToField => Success(s.(to := Some(v.bytes)))
      case AmountField => Success(s.(amount := Some(v.n)))
      case NonceField => Success(s.(nonce := Some(v.n)))
      case SignatureField => Success(s.(signature := Some(v.bytes)))
  }

  /** The keys of a map, in order. */
  function Keys(entries: seq<(string, Value)>): (keys: seq<string>)
    ensures |keys| == |entries|
    ensures forall i | 0 <= i < |entries| :: keys[i] == entries[i].0
  {
    if |entries| == 0 then [] else [entries[0].0] + Keys(entries[1..])
  }

  predicate NoRepeats(keys: seq<string>)
  {
    forall i, j | 0 <= i < j < |keys| :: keys[i] != keys[j]
  }

  /** The loop over the map's entries: each key must name a field not read
      yet, and its value must fit that field. */
  function VisitEntries(s: Seen, entries: seq<(string, Value)>): (r: Result<Seen, DecodeError>)
    ensures r.Success? ==> forall k | k in Keys(entries) :: VisitStr(k).Success?
    ensures r.Success? ==> NoRepeats(Keys(entries))
    ensures r.Success? ==> forall f: Field | Has(s, f) :: Name(f) !in Keys(entries)
    ensures r.Success? ==> forall f: Field :: Has(r.value, f) <==> Has(s, f) || Name(f) in Keys(entries)
    ensures r.Success? ==> forall i | 0 <= i < |entries| ::
      VisitStr(entries[i].0).Success? && Stored(r.value, VisitStr(entries[i].0).value) == Some(entries[i].1)
    ensures r.Success? ==> forall f: Field | Name(f) !in Keys(entries) :: Stored(r.value, f) == Stored(s, f)
    decreases |entries|
  {
    if |entries| == 0 then Success(s)
    else
      match VisitStr(entries[0].0)
      case Failure(e) => Failure(e)
      case Success(f) =>
        if Has(s, f) then Failure(DuplicateField(Name(f)))
        else
          match Read(s, f, entries[0].1)
          case Failure(e) => Failure(e)
          case Success(s') => VisitEntries(s', entries[1..])
  }

  /** After the loop: every field must have been read, the first missing one
      in the order from, to, amount, nonce, signature is reported, and the
      signature must be exactly 64 bytes. */
  function Finish(s: Seen): (r: Result<Transaction, DecodeError>)
    ensures r.Success? <==>
      s.from.Some? && s.to.Some? && s.amount.Some? && s.nonce.Some? && s.signature.Some?
      && |s.signature.value| == SignatureLength
    ensures r.Success? ==>
      Some(r.value.from) == s.from && Some(r.value.to) == s.to && Some(r.value.amount) == s.amount
      && Some(r.value.nonce) == s.nonce && Some(r.value.signature) == s.signature
    ensures r.Success? ==> forall f: Field :: Stored(s, f) == Some(FieldValue(r.value, f))
    ensures s.from.None? ==> r == Failure(MissingField("from"))
    ensures s.from.Some? && s.to.None? ==> r == Failure(MissingField("to"))
    ensures s.from.Some? && s.to.Some? && s.amount.None? ==> r == Failure(MissingField("amount"))
    ensures s.from.Some? && s.to.Some? && s.amount.Some? && s.nonce.None? ==> r == Failure(MissingField("nonce"))
    ensures s.from.Some? && s.to.Some? && s.amount.Some? && s.nonce.Some? && s.signature.None?
            ==> r == Failure(MissingField("signature"))
    ensures s.from.Some? && s.to.Some? && s.amount.Some? && s.nonce.Some? && s.signature.Some?
            && |s.signature.value| != SignatureLength
            ==> r == Failure(InvalidLength(|s.signature.value|))
  {
    if s.from.None? then Failure(MissingField("from"))
    else if s.to.None? then Failure(MissingField("to"))
    else if s.amount.None? then Failure(MissingField("amount"))
    else if s.nonce.None? then Failure(MissingField("nonce"))
    else if s.signature.None? then Failure(MissingField("signature"))
    else if |s.signature.value| != SignatureLength then Failure(InvalidLength(|s.signature.value|))
    else Success(Transaction(s.from.value, s.to.value, s.amount.value, s.nonce.value, s.signature.value))
  }

  /** The value field `f` of `tx` takes in a map. */
  function FieldValue(tx: Transaction, f: Field): (v: Value)
    ensures Fits(f, v)
  {
    match f
    case FromField => Blob(tx.from)
    case ToField => Blob(tx.to)
    case AmountField => Number(tx.amount)
    case NonceField => Number(tx.nonce)
    case SignatureField => Blob(tx.signature)
  }

  /** Whether entry `e` names a field and carries that field's value in
      `tx`. */
  predicate EntryOf(e: (string, Value), tx: Transaction)
  {
    VisitStr(e.0).Success? && e.1 == FieldValue(tx, VisitStr(e.0).value)
  }

  /** Decodes a transaction from the entries of a map, in the order they
      come. A decoded transaction used every field name exactly once, and
      each of its fields holds the value its entry carried. */
  function VisitMap(entries: seq<(string, Value)>): (r: Result<Transaction, DecodeError>)
    ensures r.Success? ==> NoRepeats(Keys(entries))
    ensures r.Success? ==> forall f: Field :: Name(f) in Keys(entries)
    ensures r.Success? ==> forall k | k in Keys(entries) :: k in FieldNames
    ensures r.Success? ==> forall i | 0 <= i < |entries| :: EntryOf(entries[i], r.value)
  {
    match VisitEntries(NothingSeen, entries)
    case Failure(e) => Failure(e)
    case Success(s) =>
      assert forall k | k in Keys(entries) :: VisitStr(k).Success?;
      Finish(s)
  }

  /** The fields in declaration order. */
  const FieldOrder: seq<Field> := [FromField, ToField, AmountField, NonceField, SignatureField]

  /** The entries of a transaction, one per field in declaration order. */
  function Entries(tx: Transaction): (es: seq<(string, Value)>)
    ensures |es| == |FieldOrder|
  {
    seq(|FieldOrder|, k requires 0 <= k < |FieldOrder| => (Name(FieldOrder[k]), FieldValue(tx, FieldOrder[k])))
  }

  /** A transaction's own entries decode back to it. */
  lemma VisitMapRoundTrip(tx: Transaction)
    ensures VisitMap(Entries(tx)) == Success(tx)
  {
    VisitMapExactlyPermutations(Entries(tx), tx);
  }

  /** An empty map reports the sender address first. */
  lemma EmptyMapMissesFrom()
    ensures VisitMap([]) == Failure(MissingField("from"))
  {
  }

  /** Reading two consecutive runs of entries is reading the first, then
      the second from where the first left off. */
  lemma {:induction false} VisitEntriesAppend(s: Seen, a: seq<(string, Value)>, b: seq<(string, Value)>)
    ensures VisitEntries(s, a + b) ==
      match VisitEntries(s, a)
      case Failure(e) => Failure(e)
      case Success(s') => VisitEntries(s', b)
    decreases |a|
  {
    if |a| > 0 {
      assert (a + b)[0] == a[0];
      assert (a + b)[1..] == a[1..] + b;
      match VisitStr(a[0].0)
      case Failure(_) =>
      case Success(f) =>
        if !Has(s, f) {
          match Read(s, f, a[0].1)
          case Failure(_) =>
          case Success(s') => VisitEntriesAppend(s', a[1..], b);
        }
    } else {
      assert a + b == b;
    }
  }

  /** When the entries before position `j` decode cleanly and the key at `j`
      repeats one of them, decoding stops there with a duplicate-field error
      naming that key. */
  lemma DuplicateReported(entries: seq<(string, Value)>, i: nat, j: nat)
    requires i < j < |entries|
    requires VisitEntries(NothingSeen, entries[..j]).Success?
    requires entries[i].0 == entries[j].0
    ensures VisitMap(entries) == Failure(DuplicateField(entries[j].0))
  {
    var prefix, rest := entries[..j], entries[j..];
    TakeDropJoin(entries, j);
    assert prefix[i].0 == rest[0].0 == entries[j].0;
    DuplicateAfterCleanPrefix(prefix, rest, i);
  }

  /** A clean run of entries followed by an entry repeating one of its keys
      fails on that entry. */
  lemma DuplicateAfterCleanPrefix(prefix: seq<(string, Value)>, rest: seq<(string, Value)>, i: nat)
    requires VisitEntries(NothingSeen, prefix).Success?
    requires i < |prefix| && 0 < |rest| && prefix[i].0 == rest[0].0
    ensures VisitEntries(NothingSeen, prefix + rest) == Failure(DuplicateField(rest[0].0))
    ensures VisitMap(prefix + rest) == Failure(DuplicateField(rest[0].0))
  {
    VisitEntriesAppend(NothingSeen, prefix, rest);
    PrefixHasKey(prefix, i);
    DuplicateStops(VisitEntries(NothingSeen, prefix).value, rest);
  }

  /** Cutting a sequence in two and joining the halves gives it back. */
  lemma TakeDropJoin<T>(s: seq<T>, j: nat)
    requires j <= |s|
    ensures s[..j] + s[j..] == s
  {
  }

  /** After a clean run of entries, the field each of its keys names has
      been read. */
  lemma PrefixHasKey(prefix: seq<(string, Value)>, i: nat)
    requires VisitEntries(NothingSeen, prefix).Success?
    requires i < |prefix|
    ensures VisitStr(prefix[i].0).Success?
    ensures Has(VisitEntries(NothingSeen, prefix).value, VisitStr(prefix[i].0).value)
  {
    assert Keys(prefix)[i] == prefix[i].0;
  }

  /** An entry whose key names a field already read stops the loop with a
      duplicate-field error naming that key. */
  lemma DuplicateStops(s: Seen, rest: seq<(string, Value)>)
    requires |rest| > 0 && VisitStr(rest[0].0).Success?
    requires Has(s, VisitStr(rest[0].0).value)
    ensures VisitEntries(s, rest) == Failure(DuplicateField(rest[0].0))
  {
  }

  /** The entries the loop accepts from `s`: every key names a field, no
      key repeats or names a field already read, and every value has the
      shape of the field its key names. */
  predicate Acceptable(s: Seen, entries: seq<(string, Value)>)
  {
    && (forall i | 0 <= i < |entries| :: KnownAndFits(entries[i]))
    && NoRepeats(Keys(entries))
    && (forall f: Field | Has(s, f) :: Name(f) !in Keys(entries))
  }

  /** Whether entry `e` names a field and has that field's shape. */
  predicate KnownAndFits(e: (string, Value))
  {
    VisitStr(e.0).Success? && Fits(VisitStr(e.0).value, e.1)
  }

  /** A value read for a field has that field's shape. */
  lemma StoredFits(s: Seen, f: Field)
    requires Stored(s, f).Some?
    ensures Fits(f, Stored(s, f).value)
  {
  }

  /** The loop succeeds exactly on the acceptable entries, whatever order
      the keys come in. */
  lemma {:induction false} VisitEntriesAccepts(s: Seen, entries: seq<(string, Value)>)
    ensures VisitEntries(s, entries).Success? <==> Acceptable(s, entries)
    decreases |entries|
  {
    if VisitEntries(s, entries).Success? {
      var t := VisitEntries(s, entries).value;
      forall i | 0 <= i < |entries|
        ensures KnownAndFits(entries[i])
      {
        StoredFits(t, VisitStr(entries[i].0).value);
      }
    }
    if Acceptable(s, entries) && |entries| > 0 {
      var f := VisitStr(entries[0].0).value;
      assert Keys(entries) == [entries[0].0] + Keys(entries[1..]);
      assert !Has(s, f);
      var s' := Read(s, f, entries[0].1).value;
      forall j | 0 <= j < |entries[1..]|
        ensures Keys(entries[1..])[j] != Name(f)
      {
        assert Keys(entries)[j + 1] != Keys(entries)[0];
      }
      forall g: Field | Has(s', g)
        ensures Name(g) !in Keys(entries[1..])
      {
        if g != f {
          assert Name(g) !in Keys(entries);
        }
      }
      forall i | 0 <= i < |entries[1..]|
        ensures KnownAndFits(entries[1..][i])
      {
        assert entries[1..][i] == entries[i + 1];
      }
      forall a, b | 0 <= a < b < |entries[1..]|
        ensures Keys(entries[1..])[a] != Keys(entries[1..])[b]
      {
        assert Keys(entries)[a + 1] != Keys(entries)[b + 1];
      }
      VisitEntriesAccepts(s', entries[1..]);
    }
  }

  /** Different fields have different names. */
  lemma NameInjective(f: Field, g: Field)
    ensures Name(f) == Name(g) ==> f == g
  {
    VisitStrReadsName(f);
    VisitStrReadsName(g);
  }

  /** Every field has its place in the declaration order. */
  lemma FieldInOrder(f: Field) returns (k: nat)
    ensures k < |FieldOrder| && FieldOrder[k] == f
  {
    k := match f
      case FromField => 0
      case ToField => 1
      case AmountField => 2
      case NonceField => 3
      case SignatureField => 4;
  }

  /** An entry belongs to `tx`'s entries exactly when its key names a field
      and its value is that field of `tx`. */
  lemma EntriesMembers(tx: Transaction, e: (string, Value))
    ensures e in Entries(tx) <==> EntryOf(e, tx)
  {
    var es := Entries(tx);
    if e in es {
      var k :| 0 <= k < |es| && es[k] == e;
      VisitStrReadsName(FieldOrder[k]);
    }
    if EntryOf(e, tx) {
      var k := FieldInOrder(VisitStr(e.0).value);
      assert es[k] == e;
    }
  }

  /** No two of a transaction's entries share a key. */
  lemma EntriesKeysDistinct(tx: Transaction)
    ensures NoRepeats(Keys(Entries(tx)))
  {
    var es := Entries(tx);
    FieldOrderDistinct();
    forall i, j | 0 <= i < j < |es|
      ensures Keys(es)[i] != Keys(es)[j]
    {
      NameInjective(FieldOrder[i], FieldOrder[j]);
    }
  }

  lemma FieldOrderDistinct()
    ensures Distinct(FieldOrder)
  {
  }

  /** Every field is named by one of a transaction's entries. */
  lemma EntriesNameEveryField(tx: Transaction)
    ensures forall f: Field :: Name(f) in Keys(Entries(tx))
  {
    forall f: Field
      ensures Name(f) in Keys(Entries(tx))
    {
      var k := FieldInOrder(f);
      assert Keys(Entries(tx))[k] == Name(f);
    }
  }

  /** No element of `a` occurs at two positions. */
  predicate Distinct<T(==)>(a: seq<T>)
  {
    forall i, j | 0 <= i < j < |a| :: a[i] != a[j]
  }

  /** In a sequence without repeated elements every element occurs once. */
  lemma {:induction false} DistinctOccursOnce<T>(a: seq<T>, x: T)
    requires Distinct(a)
    ensures multiset(a)[x] == if x in a then 1 else 0
  {
    if |a| > 0 {
      assert a == [a[0]] + a[1..];
      forall j | 0 <= j < |a[1..]|
        ensures a[1..][j] != a[0]
      {
        assert a[1..][j] == a[j + 1];
      }
      forall i, j | 0 <= i < j < |a[1..]|
        ensures a[1..][i] != a[1..][j]
      {
        assert a[1..][i] == a[i + 1] && a[1..][j] == a[j + 1];
      }
      DistinctOccursOnce(a[1..], x);
    }
  }

  /** An element found at two positions occurs at least twice. */
  lemma RepeatOccursTwice<T>(a: seq<T>, i: nat, j: nat)
    requires i < j < |a| && a[i] == a[j]
    ensures multiset(a)[a[i]] >= 2
  {
    assert a == a[..j] + a[j..];
    assert a[i] in a[..j];
    assert a[j..][0] == a[i];
  }

  /** Entries with different keys are different entries. */
  lemma DistinctKeysDistinctEntries(entries: seq<(string, Value)>)
    requires NoRepeats(Keys(entries))
    ensures Distinct(entries)
  {
    forall i: nat, j: nat | i < j < |entries|
      ensures entries[i] != entries[j]
    {
      assert Keys(entries)[i] != Keys(entries)[j];
    }
  }

  /** The entries of a map that decodes to `tx`: no key repeats, every
      field is named, and each entry's key names a field whose value in `tx`
      the entry carries. */
  predicate EntriesFor(entries: seq<(string, Value)>, tx: Transaction)
  {
    && NoRepeats(Keys(entries))
    && (forall f: Field :: Name(f) in Keys(entries))
    && (forall i | 0 <= i < |entries| :: EntryOf(entries[i], tx))
  }

  /** A map decodes to `tx` exactly when its entries are entries for `tx`,
      whatever order the keys come in. */
  lemma VisitMapDecodesEntriesFor(entries: seq<(string, Value)>, tx: Transaction)
    ensures VisitMap(entries) == Success(tx) <==> EntriesFor(entries, tx)
  {
    if EntriesFor(entries, tx) {
      EntriesForDecode(entries, tx);
    }
  }

  lemma EntriesForDecode(entries: seq<(string, Value)>, tx: Transaction)
    requires EntriesFor(entries, tx)
    ensures VisitMap(entries) == Success(tx)
  {
    EntriesForAcceptable(entries, tx);
    VisitEntriesAccepts(NothingSeen, entries);
    var s := VisitEntries(NothingSeen, entries).value;
    EntriesForStored(entries, tx, s);
    FinishStored(s, tx);
  }

  lemma EntriesForAcceptable(entries: seq<(string, Value)>, tx: Transaction)
    requires EntriesFor(entries, tx)
    ensures Acceptable(NothingSeen, entries)
  {
    forall i | 0 <= i < |entries|
      ensures KnownAndFits(entries[i])
    {
      EntryOfFits(entries[i], tx);
    }
    NothingRead();
  }

  /** Before the loop no field has been read. */
  lemma NothingRead()
    ensures forall f: Field :: !Has(NothingSeen, f)
  {
  }

  lemma EntryOfFits(e: (string, Value), tx: Transaction)
    requires EntryOf(e, tx)
    ensures KnownAndFits(e)
  {
  }

  /** The loop over entries for `tx` reads every field of `tx`. */
  lemma EntriesForStored(entries: seq<(string, Value)>, tx: Transaction, s: Seen)
    requires EntriesFor(entries, tx)
    requires VisitEntries(NothingSeen, entries) == Success(s)
    ensures forall f: Field :: Stored(s, f) == Some(FieldValue(tx, f))
  {
    forall f: Field
      ensures Stored(s, f) == Some(FieldValue(tx, f))
    {
      var i :| 0 <= i < |entries| && Keys(entries)[i] == Name(f);
      VisitStrReadsName(f);
    }
  }

  /** Finishing after every field of `tx` was read gives `tx`. */
  lemma FinishStored(s: Seen, tx: Transaction)
    requires forall f: Field :: Stored(s, f) == Some(FieldValue(tx, f))
    ensures Finish(s) == Success(tx)
  {
    assert Stored(s, FromField) == Some(Blob(tx.from));
    assert Stored(s, ToField) == Some(Blob(tx.to));
    assert Stored(s, AmountField) == Some(Number(tx.amount));
    assert Stored(s, NonceField) == Some(Number(tx.nonce));
    assert Stored(s, SignatureField) == Some(Blob(tx.signature));
  }

  /** The entries for `tx` are `tx`'s own entries in some order, and every
      reordering of them is entries for `tx`. */
  lemma EntriesForIsPermutation(entries: seq<(string, Value)>, tx: Transaction)
    ensures EntriesFor(entries, tx) <==> multiset(entries) == multiset(Entries(tx))
  {
    if EntriesFor(entries, tx) {
      EntriesForSameMultiset(entries, tx);
    }
    if multiset(entries) == multiset(Entries(tx)) {
      PermutationIsEntriesFor(entries, tx);
    }
  }

  lemma EntriesForSameMultiset(entries: seq<(string, Value)>, tx: Transaction)
    requires EntriesFor(entries, tx)
    ensures multiset(entries) == multiset(Entries(tx))
  {
    var es := Entries(tx);
    DistinctKeysDistinctEntries(entries);
    EntriesKeysDistinct(tx);
    DistinctKeysDistinctEntries(es);
    forall x
      ensures multiset(entries)[x] == multiset(es)[x]
    {
      DistinctOccursOnce(entries, x);
      DistinctOccursOnce(es, x);
      SameMembers(entries, tx, x);
    }
  }

  /** The entries for `tx` hold exactly `tx`'s entries. */
  lemma SameMembers(entries: seq<(string, Value)>, tx: Transaction, x: (string, Value))
    requires EntriesFor(entries, tx)
    ensures x in entries <==> x in Entries(tx)
  {
    EntriesMembers(tx, x);
    if x in Entries(tx) {
      var f := VisitStr(x.0).value;
      var i :| 0 <= i < |entries| && Keys(entries)[i] == Name(f);
      assert entries[i] == x;
    }
  }

  lemma PermutationIsEntriesFor(entries: seq<(string, Value)>, tx: Transaction)
    requires multiset(entries) == multiset(Entries(tx))
    ensures EntriesFor(entries, tx)
  {
    var es := Entries(tx);
    forall i | 0 <= i < |entries|
      ensures EntryOf(entries[i], tx)
    {
      assert entries[i] in multiset(es);
      EntriesMembers(tx, entries[i]);
    }
    EntriesKeysDistinct(tx);
    DistinctKeysDistinctEntries(es);
    forall i, j | 0 <= i < j < |entries|
      ensures Keys(entries)[i] != Keys(entries)[j]
    {
      if entries[i].0 == entries[j].0 {
        NoRepeatedEntry(entries, tx, i, j);
      }
    }
    forall f: Field
      ensures Name(f) in Keys(entries)
    {
      var k := FieldInOrder(f);
      assert es[k] in multiset(entries);
      var i :| 0 <= i < |entries| && entries[i] == es[k];
      assert Keys(entries)[i] == Name(f);
    }
  }

  /** Two positions of a reordering of `tx`'s entries never hold the same
      entry. */
  lemma NoRepeatedEntry(entries: seq<(string, Value)>, tx: Transaction, i: nat, j: nat)
    requires multiset(entries) == multiset(Entries(tx))
    requires Distinct(Entries(tx))
    requires i < j < |entries|
    ensures entries[i] != entries[j]
  {
    if entries[i] == entries[j] {
      RepeatOccursTwice(entries, i, j);
      DistinctOccursOnce(Entries(tx), entries[i]);
    }
  }

  /** A map decodes to `tx` exactly when its entries are `tx`'s five
      entries, in any order. */
  lemma VisitMapExactlyPermutations(entries: seq<(string, Value)>, tx: Transaction)
    ensures VisitMap(entries) == Success(tx) <==> multiset(entries) == multiset(Entries(tx))
  {
    VisitMapDecodesEntriesFor(entries, tx);
    EntriesForIsPermutation(entries, tx);
  }

  // ---------------------------------------------------------------------
  // Hash preimage
  // ---------------------------------------------------------------------

  /** The bytes hashed to identify a transaction: sender, recipient, amount
      and nonce as eight little-endian bytes each, then the signature. */
  function HashPreimage(tx: Transaction): (p: Bytes)
    ensures |p| == 144
  {
    tx.from + tx.to + LittleEndian64(tx.amount) + LittleEndian64(tx.nonce) + tx.signature
  }

  /** Every field can be read back from the preimage, so different
      transactions have different preimages. */
  lemma HashPreimageDecodes(tx: Transaction)
    ensures HashPreimage(tx)[..32] == tx.from
    ensures HashPreimage(tx)[32..64] == tx.to
    ensures FromLittleEndian64(HashPreimage(tx)[64..72]) == tx.amount
    ensures FromLittleEndian64(HashPreimage(tx)[72..80]) == tx.nonce
    ensures HashPreimage(tx)[80..] == tx.signature
  {
    var p := HashPreimage(tx);
    assert p[64..72] == LittleEndian64(tx.amount);
    assert p[72..80] == LittleEndian64(tx.nonce);
    LittleEndian64RoundTrip(tx.amount);
    LittleEndian64RoundTrip(tx.nonce);
  }

  lemma HashPreimageInjective(t1: Transaction, t2: Transaction)
    requires t1 != t2
    ensures HashPreimage(t1) != HashPreimage(t2)
  {
    HashPreimageDecodes(t1);
    HashPreimageDecodes(t2);
  }

  /** The identifying digest of a transaction: the hash of its preimage. */
  function ComputeHash(h: HashFn, tx: Transaction): Digest
  {
    h(HashPreimage(tx))
  }

  /** Hypothesis used: CollisionFreeOn over the two preimages. Different
      transactions get different digests. */
  lemma DistinctTransactionsDistinctHashes(h: HashFn, t1: Transaction, t2: Transaction)
    requires t1 != t2
    requires CollisionFreeOn(h, {HashPreimage(t1), HashPreimage(t2)})
    ensures ComputeHash(h, t1) != ComputeHash(h, t2)
  {
    HashPreimageInjective(t1, t2);
  }
}
