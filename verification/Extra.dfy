/** The extra field of a header and the hashes and seals over it: consensus/pvbft/extra.go,
    header_hash.go and sign.go. Keccak, signing and public key recovery are parameters. */
module Extra {
  import opened Types
  import opened Rlp
  import Quorum

  type Bytestring = seq<byte>

  const VANITY := 32
  const SEAL_LENGTH := 65
  const ADDRESS_LENGTH := 20

  datatype IstanbulExtra = IstanbulExtra(
    validators: seq<Bytestring>,
    seal: Bytestring,
    committedSeal: seq<Bytestring>,
    vrfValue: Bytestring,
    vrfProof: Bytestring)
  {
    /** Every validator is an address, and the encoding has one. */
    ghost predicate Fits() {
      && (forall a :: a in validators ==> |a| == ADDRESS_LENGTH)
      && Encodable(ToValue(this))
    }
  }

  // ----- MarshalRLPWith and UnmarshalRLPFrom -----

  function AllBytes(bs: seq<Bytestring>): (vs: seq<Value>)
    ensures |vs| == |bs| && forall i :: 0 <= i < |bs| ==> vs[i] == Bytes(bs[i])
  {
    if bs == [] then [] else [Bytes(bs[0])] + AllBytes(bs[1..])
  }

  function NonEmpty(seals: seq<Bytestring>): seq<Bytestring> {
    if seals == [] then [] else
    var s := seals[|seals| - 1];
    NonEmpty(seals[..|seals| - 1]) + (if s == [] then [] else [s])
  }

  /** One null for each empty committed seal: it is set on the outer array, not on the inner one. */
  function Strays(seals: seq<Bytestring>): seq<Value> {
    if seals == [] then [] else
    Strays(seals[..|seals| - 1]) + (if seals[|seals| - 1] == [] then [Bytes([])] else [])
  }

  function ToValue(e: IstanbulExtra): Value {
    List([List(AllBytes(e.validators)), Bytes(e.seal)]
         + Strays(e.committedSeal)
         + [List(AllBytes(NonEmpty(e.committedSeal))), Bytes(e.vrfValue), Bytes(e.vrfProof)])
  }

  method MarshalStrings(bs: seq<Bytestring>) returns (vs: seq<Value>)
    ensures vs == AllBytes(bs)
  {
    vs := [];
    for i := 0 to |bs|
      invariant vs == AllBytes(bs)[..i]
    {
      vs := vs + [Bytes(bs[i])];
    }
  }

  lemma AllBytesAppend(bs: seq<Bytestring>, b: Bytestring)
    ensures AllBytes(bs + [b]) == AllBytes(bs) + [Bytes(b)]
  {
  }

  /** The loop over the committed seals: the inner array, and the outer one that gets the nulls. */
  method MarshalSeals(seals: seq<Bytestring>) returns (strays: seq<Value>, committed: seq<Value>)
    ensures strays == Strays(seals) && committed == AllBytes(NonEmpty(seals))
  {
    strays, committed := [], [];
    for i := 0 to |seals|
      invariant strays == Strays(seals[..i])
      invariant committed == AllBytes(NonEmpty(seals[..i]))
    {
      assert seals[..i + 1][..i] == seals[..i];
      if |seals[i]| == 0 {
        strays := strays + [Bytes([])];
      } else {
        AllBytesAppend(NonEmpty(seals[..i]), seals[i]);
        committed := committed + [Bytes(seals[i])];
      }
    }
    assert seals[..|seals|] == seals;
  }

  method MarshalRLPWith(e: IstanbulExtra) returns (v: Value)
    ensures v == ToValue(e)
  {
    var vals := MarshalStrings(e.validators);
    var vv := [List(vals), if |e.seal| == 0 then Bytes([]) else Bytes(e.seal)];
    var strays, committed := MarshalSeals(e.committedSeal);
    vv := vv + strays;
    vv := vv + [List(committed)];
    vv := vv + [if |e.vrfValue| == 0 then Bytes([]) else Bytes(e.vrfValue)];
    vv := vv + [if |e.vrfProof| == 0 then Bytes([]) else Bytes(e.vrfProof)];
    assert vv == ToValue(e).vs;
    v := List(vv);
  }

  /** A list of strings, all of the given length if there is one. */
  predicate IsStrings(v: Value, length: Option<nat>) {
    v.List? && forall i :: 0 <= i < |v.vs| ==> v.vs[i].Bytes? && (length.Some? ==> |v.vs[i].b| == length.value)
  }

  predicate IsExtra(v: Value) {
    && v.List? && |v.vs| == 5
    && IsStrings(v.vs[0], Some(ADDRESS_LENGTH))
    && v.vs[1].Bytes?
    && IsStrings(v.vs[2], None)
    && v.vs[3].Bytes? && v.vs[4].Bytes?
  }

  function Strings(v: Value): (bs: seq<Bytestring>)
    requires IsStrings(v, None)
    ensures |bs| == |v.vs| && forall i :: 0 <= i < |bs| ==> bs[i] == v.vs[i].b
  {
    seq(|v.vs|, i requires 0 <= i < |v.vs| => v.vs[i].b)
  }

  function FromValue(v: Value): (r: Option<IstanbulExtra>)
    ensures r.Some? ==> forall a :: a in r.value.validators ==> |a| == ADDRESS_LENGTH
  {
    if IsExtra(v)
    then Some(IstanbulExtra(Strings(v.vs[0]), v.vs[1].b, Strings(v.vs[2]), v.vs[3].b, v.vs[4].b))
    else None
  }

  /** UnmarshalRLPFrom */
  method UnmarshalRLPFrom(v: Value) returns (r: Option<IstanbulExtra>)
    ensures r == FromValue(v)
  {
    if v.Bytes? || |v.vs| != 5 || v.vs[0].Bytes? {
      return None;
    }
    var validators: seq<Bytestring> := [];
    var vals := v.vs[0].vs;
    for i := 0 to |vals|
      invariant |validators| == i
      invariant forall k :: 0 <= k < i ==>
        vals[k] == Bytes(validators[k]) && |validators[k]| == ADDRESS_LENGTH
    {
      if vals[i].List? || |vals[i].b| != ADDRESS_LENGTH {
        return None;
      }
      validators := validators + [vals[i].b];
    }
    if v.vs[1].List? || v.vs[2].Bytes? {
      return None;
    }
    var committed: seq<Bytestring> := [];
    var cs := v.vs[2].vs;
    for i := 0 to |cs|
      invariant |committed| == i && forall k :: 0 <= k < i ==> cs[k] == Bytes(committed[k])
    {
      if cs[i].List? {
        return None;
      }
      committed := committed + [cs[i].b];
    }
    if v.vs[3].List? || v.vs[4].List? {
      return None;
    }
    assert validators == Strings(v.vs[0]) && committed == Strings(v.vs[2]);
    return Some(IstanbulExtra(validators, v.vs[1].b, committed, v.vs[3].b, v.vs[4].b));
  }

  predicate NoEmptySeal(seals: seq<Bytestring>) {
    forall s :: s in seals ==> s != []
  }

  lemma {:induction false} StraysCount(seals: seq<Bytestring>)
    ensures NoEmptySeal(seals) <==> Strays(seals) == []
    ensures NoEmptySeal(seals) ==> NonEmpty(seals) == seals
  {
    if seals != [] {
      var init, last := seals[..|seals| - 1], seals[|seals| - 1];
      StraysCount(init);
      assert seals == init + [last];
      assert last in seals && forall s :: s in init ==> s in seals;
      assert Strays(seals) == Strays(init) + (if last == [] then [Bytes([])] else []);
      assert Strays(init) != [] || last == [] ==> |Strays(seals)| > 0;
    }
  }

  /** The encoding of an extra, and what decoding some bytes gives. */
  function Marshal(e: IstanbulExtra): Bytestring {
    Encode(ToValue(e))
  }

  function Unmarshal(data: Bytestring): Option<IstanbulExtra> {
    match Decode(data)
    case None => None
    case Some((v, rest)) => FromValue(v)
  }

  /** An extra decodes back to itself exactly when none of its committed seals is empty. */
  lemma ExtraRoundTrip(e: IstanbulExtra)
    requires e.Fits()
    ensures Unmarshal(Marshal(e)) == Some(e) <==> NoEmptySeal(e.committedSeal)
    ensures !NoEmptySeal(e.committedSeal) ==> Unmarshal(Marshal(e)) == None
  {
    RoundTrip(ToValue(e), []);
    assert Marshal(e) + [] == Marshal(e);
    StraysCount(e.committedSeal);
    var v := ToValue(e);
    if NoEmptySeal(e.committedSeal) {
      assert v.vs == [List(AllBytes(e.validators)), Bytes(e.seal), List(AllBytes(e.committedSeal)),
                      Bytes(e.vrfValue), Bytes(e.vrfProof)];
      assert IsExtra(v);
      assert Strings(v.vs[0]) == e.validators && Strings(v.vs[2]) == e.committedSeal;
    }
  }

  // ----- Headers -----

  datatype Header = Header(
    parentHash: Bytestring, sha3Uncles: Bytestring, miner: Bytestring, stateRoot: Bytestring,
    txRoot: Bytestring, receiptsRoot: Bytestring, logsBloom: Bytestring,
    difficulty: nat, number: nat, gasLimit: nat, gasUsed: nat, timestamp: nat,
    extraData: Bytestring, mixHash: Bytestring, nonce: Bytestring)

  function Zeros(n: nat): (z: Bytestring)
    ensures |z| == n
  {
    seq(n, i => 0)
  }

  /** The first 32 bytes, padded with zeros on the right. */
  function Vanity(extra: Bytestring): (v: Bytestring)
    ensures |v| == VANITY
  {
    if |extra| < VANITY then extra + Zeros(VANITY - |extra|) else extra[..VANITY]
  }

  function PutIbftExtra(h: Header, e: IstanbulExtra): Header {
    h.(extraData := Vanity(h.extraData) + Marshal(e))
  }

  function ValidatorsOnly(validators: seq<Bytestring>): IstanbulExtra {
    IstanbulExtra(validators, [], [], [], [])
  }

  function PutIbftExtraValidators(h: Header, validators: seq<Bytestring>): Header {
    h.(extraData := Vanity(h.extraData) + Marshal(ValidatorsOnly(validators)))
  }

  function GetIbftExtra(h: Header): Option<IstanbulExtra> {
    if |h.extraData| < VANITY then None else Unmarshal(h.extraData[VANITY..])
  }

  /** The array that calculateHeaderHash and istanbulHeaderHash both hash. */
  function HashedFields(h: Header): Value {
    List([Bytes(h.parentHash), Bytes(h.sha3Uncles), Bytes(h.miner), Bytes(h.stateRoot), Bytes(h.txRoot),
          Bytes(h.receiptsRoot), Bytes(h.logsBloom), Bytes(BigEndian(h.difficulty)), Bytes(BigEndian(h.number)),
          Bytes(BigEndian(h.gasLimit)), Bytes(BigEndian(h.gasUsed)), Bytes(BigEndian(h.timestamp)), Bytes(h.extraData)])
  }

  /** What is hashed: the header with every seal and the VRF fields taken out of its extra data. Nothing
      if the extra data does not decode. */
  function HashInput(h: Header): Option<Bytestring> {
    match GetIbftExtra(h)
    case None => None
    case Some(e) => Some(Encode(HashedFields(PutIbftExtraValidators(h, e.validators))))
  }

  /** calculateHeaderHash */
  function CalculateHeaderHash(h: Header, keccak: Bytestring -> Bytestring): Option<Bytestring> {
    match HashInput(h)
    case None => None
    case Some(input) => Some(keccak(input))
  }

  /** The array of calculateHeaderHash, one element after another. */
  method HeaderArray(h: Header) returns (v: Value)
    ensures v == HashedFields(h)
  {
    var vv := [Bytes(h.parentHash)];
    vv := vv + [Bytes(h.sha3Uncles)];
    vv := vv + [Bytes(h.miner)];
    vv := vv + [Bytes(h.stateRoot)];
    vv := vv + [Bytes(h.txRoot)];
    vv := vv + [Bytes(h.receiptsRoot)];
    vv := vv + [Bytes(h.logsBloom)];
    vv := vv + [Bytes(BigEndian(h.difficulty))];
    vv := vv + [Bytes(BigEndian(h.number))];
    vv := vv + [Bytes(BigEndian(h.gasLimit))];
    vv := vv + [Bytes(BigEndian(h.gasUsed))];
    vv := vv + [Bytes(BigEndian(h.timestamp))];
    vv := vv + [Bytes(h.extraData)];
    return List(vv);
  }

  /** calculateHeaderHash as it is written. */
  method SigningHash(h: Header, keccak: Bytestring -> Bytestring) returns (hash: Option<Bytestring>)
    ensures hash == CalculateHeaderHash(h, keccak)
  {
    var extra := GetIbftExtra(h);
    if extra.None? {
      return None;
    }
    var v := HeaderArray(PutIbftExtraValidators(h, extra.value.validators));
    return Some(keccak(Encode(v)));
  }

  /** istanbulHeaderHash: the same, with the zero hash for an extra that does not decode. */
  method IstanbulHeaderHash(h: Header, keccak: Bytestring -> Bytestring) returns (hash: Bytestring)
    ensures hash == match CalculateHeaderHash(h, keccak) case Some(x) => x case None => Zeros(32)
  {
    var extra := GetIbftExtra(h);
    if extra.None? {
      return Zeros(32);
    }
    var v := HeaderArray(PutIbftExtraValidators(h, extra.value.validators));
    return keccak(Encode(v));
  }

  /** A string that reads as the number. */
  ghost predicate Reads(v: Value, n: nat) {
    v.Bytes? && FromBigEndian(v.b) == n
  }

  /** The elements of the hashed array by their place. */
  ghost predicate FieldsInPlace(h: Header, vs: seq<Value>) {
    && |vs| == 13
    && vs[0] == Bytes(h.parentHash) && vs[1] == Bytes(h.sha3Uncles) && vs[2] == Bytes(h.miner)
    && vs[3] == Bytes(h.stateRoot) && vs[4] == Bytes(h.txRoot) && vs[5] == Bytes(h.receiptsRoot)
    && vs[6] == Bytes(h.logsBloom) && vs[12] == Bytes(h.extraData)
    && Reads(vs[7], h.difficulty) && Reads(vs[8], h.number) && Reads(vs[9], h.gasLimit)
    && Reads(vs[10], h.gasUsed) && Reads(vs[11], h.timestamp)
  }

  lemma ReadsBack(n: nat)
    ensures Reads(Bytes(BigEndian(n)), n)
  {
    BigEndianRoundTrip(n);
  }

  lemma HashedInPlace(h: Header)
    ensures FieldsInPlace(h, HashedFields(h).vs)
  {
    ReadsBack(h.difficulty);
    ReadsBack(h.number);
    ReadsBack(h.gasLimit);
    ReadsBack(h.gasUsed);
    ReadsBack(h.timestamp);
  }

  lemma DecodesWhole(v: Value)
    requires Encodable(v)
    ensures Decode(Encode(v)) == Some((v, []))
  {
    RoundTrip(v, []);
    assert Encode(v) + [] == Encode(v);
  }

  /** The extra data without seals and VRF fields: the vanity, and the validators alone. */
  ghost predicate OnlyValidators(extra: Bytestring, stripped: Bytestring, validators: seq<Bytestring>) {
    && |extra| >= VANITY && |stripped| >= VANITY && stripped[..VANITY] == extra[..VANITY]
    && Unmarshal(stripped[VANITY..]) == Some(ValidatorsOnly(validators))
  }

  lemma StrippedExtra(h: Header, validators: seq<Bytestring>)
    requires |h.extraData| >= VANITY && ValidatorsOnly(validators).Fits()
    ensures OnlyValidators(h.extraData, PutIbftExtraValidators(h, validators).extraData, validators)
  {
    var x := PutIbftExtraValidators(h, validators).extraData;
    ExtraRoundTrip(ValidatorsOnly(validators));
    assert x[VANITY..] == Marshal(ValidatorsOnly(validators));
    assert x[..VANITY] == Vanity(h.extraData);
  }

  /** What is hashed decodes to the fields of the header in their places, with an extra that holds the vanity and the
      validators and nothing else. */
  lemma HashInputDecodes(h: Header) returns (vs: seq<Value>, stripped: Bytestring)
    requires GetIbftExtra(h).Some? && HashFits(h)
    ensures Decode(HashInput(h).value) == Some((List(vs), [])) && FieldsInPlace(h.(extraData := stripped), vs)
    ensures OnlyValidators(h.extraData, stripped, GetIbftExtra(h).value.validators)
  {
    var h' := PutIbftExtraValidators(h, GetIbftExtra(h).value.validators);
    vs, stripped := HashedFields(h').vs, h'.extraData;
    DecodesWhole(HashedFields(h'));
    HashedInPlace(h');
    StrippedExtra(h, GetIbftExtra(h).value.validators);
  }

  /** writeSeal; vrf is None when the VRF evaluation fails. */
  function WriteSeal(h: Header, keccak: Bytestring -> Bytestring, sign: Bytestring -> Bytestring,
                     vrf: Option<(Bytestring, Bytestring)>): Option<Header>
  {
    match CalculateHeaderHash(h, keccak)
    case None => None
    case Some(hash) =>
      match vrf
      case None => None
      case Some((value, proof)) =>
        var e := GetIbftExtra(h).value;
        Some(PutIbftExtra(h, e.(seal := sign(hash), vrfValue := value, vrfProof := proof)))
  }

  /** writeCommittedSeals */
  function WriteCommittedSeals(h: Header, seals: seq<Bytestring>): Option<Header> {
    if seals == [] || (exists s :: s in seals && |s| != SEAL_LENGTH) then None else
    match GetIbftExtra(h)
    case None => None
    case Some(e) => Some(PutIbftExtra(h, e.(committedSeal := seals)))
  }

  /** Committed seals are written exactly if there are some, all of them are 65 bytes long and the extra decodes. */
  lemma CommittedSealsWritten(h: Header, seals: seq<Bytestring>)
    ensures WriteCommittedSeals(h, seals).Some? <==>
      |seals| > 0 && (forall i :: 0 <= i < |seals| ==> |seals[i]| == 65) && GetIbftExtra(h).Some?
  {
    assert forall i :: 0 <= i < |seals| ==> seals[i] in seals;
  }

  /** A header is sealed exactly if its extra decodes and the VRF was evaluated; the seal and the VRF output are then
      read back, unless a committed seal is empty. */
  lemma SealWritten(h: Header, keccak: Bytestring -> Bytestring, sign: Bytestring -> Bytestring,
                    vrf: Option<(Bytestring, Bytestring)>)
    ensures var r := WriteSeal(h, keccak, sign, vrf);
      && (r.Some? <==> GetIbftExtra(h).Some? && vrf.Some?)
      && (r.Some? ==>
            var e := GetIbftExtra(h).value.(seal := sign(CalculateHeaderHash(h, keccak).value),
                                            vrfValue := vrf.value.0, vrfProof := vrf.value.1);
            e.Fits() && NoEmptySeal(e.committedSeal) ==> GetIbftExtra(r.value) == Some(e))
  {
    var r := WriteSeal(h, keccak, sign, vrf);
    if r.Some? {
      var e := GetIbftExtra(h).value.(seal := sign(CalculateHeaderHash(h, keccak).value),
                                      vrfValue := vrf.value.0, vrfProof := vrf.value.1);
      if e.Fits() {
        PutThenGet(h, e);
      }
    }
  }

  /** Replacing the extra data by one with the same validators: what is read back, and what is hashed. */
  lemma PutThenGet(h: Header, e: IstanbulExtra)
    requires e.Fits()
    ensures GetIbftExtra(PutIbftExtra(h, e)) == if NoEmptySeal(e.committedSeal) then Some(e) else None
  {
    ExtraRoundTrip(e);
    var h' := PutIbftExtra(h, e);
    assert h'.extraData[VANITY..] == Marshal(e);
  }

  lemma SameHashInput(h: Header, e: IstanbulExtra)
    requires e.Fits() && GetIbftExtra(h).Some? && e.validators == GetIbftExtra(h).value.validators
    ensures HashInput(PutIbftExtra(h, e)) == HashInput(h) <==> NoEmptySeal(e.committedSeal)
  {
    PutThenGet(h, e);
    var h' := PutIbftExtra(h, e);
    assert Vanity(h'.extraData) == Vanity(h.extraData);
  }

  /** Sealing does not change the hash, whatever the seal and the VRF output, exactly when the header it
      starts from carries no empty committed seal. */
  lemma WriteSealKeepsHash(h: Header, keccak: Bytestring -> Bytestring, sign: Bytestring -> Bytestring,
                           vrf: Option<(Bytestring, Bytestring)>)
    requires WriteSeal(h, keccak, sign, vrf).Some?
    requires GetIbftExtra(h).value.(seal := sign(CalculateHeaderHash(h, keccak).value), vrfValue := vrf.value.0,
                                    vrfProof := vrf.value.1).Fits()
    ensures HashInput(WriteSeal(h, keccak, sign, vrf).value) == HashInput(h)
            <==> NoEmptySeal(GetIbftExtra(h).value.committedSeal)
  {
    SameHashInput(h, GetIbftExtra(h).value.(seal := sign(CalculateHeaderHash(h, keccak).value),
                                            vrfValue := vrf.value.0, vrfProof := vrf.value.1));
  }

  /** Inserting the committed seals never changes the hash, and they are read back as they were written. */
  lemma CommittedSealsKeepHash(h: Header, seals: seq<Bytestring>)
    requires WriteCommittedSeals(h, seals).Some?
    requires GetIbftExtra(h).value.(committedSeal := seals).Fits()
    ensures var h' := WriteCommittedSeals(h, seals).value;
            && HashInput(h') == HashInput(h)
            && GetIbftExtra(h') == Some(GetIbftExtra(h).value.(committedSeal := seals))
  {
    var e := GetIbftExtra(h).value.(committedSeal := seals);
    assert NoEmptySeal(seals);
    SameHashInput(h, e);
    PutThenGet(h, e);
  }

  /** The hash covers everything else: two headers with the same hash input differ at most in their seals,
      their VRF fields, the mix hash and the nonce. */
  predicate SameButSeals(h: Header, g: Header) {
    && GetIbftExtra(h).Some? && GetIbftExtra(g).Some?
    && GetIbftExtra(h).value.validators == GetIbftExtra(g).value.validators
    && h.extraData[..VANITY] == g.extraData[..VANITY]
    && h.(extraData := [], mixHash := [], nonce := []) == g.(extraData := [], mixHash := [], nonce := [])
  }

  ghost predicate HashFits(h: Header) {
    GetIbftExtra(h).Some? ==>
      var vs := GetIbftExtra(h).value.validators;
      ValidatorsOnly(vs).Fits() && Encodable(HashedFields(PutIbftExtraValidators(h, vs)))
  }

  lemma SameExtraValidators(x: Bytestring, y: Bytestring, vs: seq<Bytestring>, ws: seq<Bytestring>)
    requires |x| == |y| == VANITY && x + Marshal(ValidatorsOnly(vs)) == y + Marshal(ValidatorsOnly(ws))
    requires ValidatorsOnly(vs).Fits() && ValidatorsOnly(ws).Fits()
    ensures x == y && vs == ws
  {
    var m, n := Marshal(ValidatorsOnly(vs)), Marshal(ValidatorsOnly(ws));
    assert (x + m)[..VANITY] == x && (y + n)[..VANITY] == y;
    assert (x + m)[VANITY..] == m && (y + n)[VANITY..] == n;
    ExtraRoundTrip(ValidatorsOnly(vs));
    ExtraRoundTrip(ValidatorsOnly(ws));
  }

  lemma SameFields(h: Header, g: Header)
    requires HashedFields(h) == HashedFields(g)
    ensures h.(mixHash := [], nonce := []) == g.(mixHash := [], nonce := [])
  {
    var a, b := HashedFields(h).vs, HashedFields(g).vs;
    assert forall i :: 0 <= i < 13 ==> a[i] == b[i];
    assert a[0] == b[0] && a[1] == b[1] && a[2] == b[2] && a[3] == b[3] && a[4] == b[4] && a[5] == b[5] && a[6] == b[6];
    assert a[7] == b[7] && a[8] == b[8] && a[9] == b[9] && a[10] == b[10] && a[11] == b[11] && a[12] == b[12];
    BigEndianInjective(h.difficulty, g.difficulty);
    BigEndianInjective(h.number, g.number);
    BigEndianInjective(h.gasLimit, g.gasLimit);
    BigEndianInjective(h.gasUsed, g.gasUsed);
    BigEndianInjective(h.timestamp, g.timestamp);
  }

  lemma HashInputExact(h: Header, g: Header)
    requires GetIbftExtra(h).Some? && GetIbftExtra(g).Some? && HashFits(h) && HashFits(g)
    ensures HashInput(h) == HashInput(g) <==> SameButSeals(h, g)
  {
    var vs, ws := GetIbftExtra(h).value.validators, GetIbftExtra(g).value.validators;
    var h', g' := PutIbftExtraValidators(h, vs), PutIbftExtraValidators(g, ws);
    if HashInput(h) == HashInput(g) {
      EncodeInjective(HashedFields(h'), HashedFields(g'));
      SameFields(h', g');
      SameExtraValidators(Vanity(h.extraData), Vanity(g.extraData), vs, ws);
    }
  }

  // ----- Seals made before insertion verify after it -----

  /** commitMsg */
  function CommitMsg(hash: Bytestring, keccak: Bytestring -> Bytestring): Bytestring {
    keccak(hash + [2])
  }

  function CommitSeals(keys: seq<Address>, sign: (Address, Bytestring) -> Bytestring,
                       msg: Bytestring): (r: seq<Bytestring>)
    ensures |r| == |keys| && forall i :: 0 <= i < |keys| ==> r[i] == sign(keys[i], msg)
  {
    seq(|keys|, i requires 0 <= i < |keys| => sign(keys[i], msg))
  }

  /** The signature of a on m has 65 bytes and recovers to a. */
  predicate GoodSignature(sign: (Address, Bytestring) -> Bytestring,
                          recover: (Bytestring, Bytestring) -> Option<Address>,
                          a: Address, m: Bytestring)
  {
    recover(sign(a, m), m) == Some(a) && |sign(a, m)| == SEAL_LENGTH
  }

  lemma {:induction false} LeadingZeros(k: nat, s: Bytestring)
    ensures FromBigEndian(Zeros(k) + s) == FromBigEndian(s)
    decreases |s|, k
  {
    if s != [] {
      LeadingZeros(k, s[..|s| - 1]);
      assert (Zeros(k) + s)[..|Zeros(k) + s| - 1] == Zeros(k) + s[..|s| - 1];
    } else if k > 0 {
      LeadingZeros(k - 1, s);
      assert (Zeros(k) + s)[..k - 1] == Zeros(k - 1) + s;
    }
  }

  function PaddedAddress(a: Address): Bytestring {
    if |BigEndian(a)| <= SEAL_LENGTH then Zeros(SEAL_LENGTH - |BigEndian(a)|) + BigEndian(a) else []
  }

  /** There are functions that are good for every address of 20 bytes and every message. */
  lemma SignaturesExist()
      returns (sign: (Address, Bytestring) -> Bytestring, recover: (Bytestring, Bytestring) -> Option<Address>)
    ensures forall a: Address, m: Bytestring :: a < Pow256(20) ==> GoodSignature(sign, recover, a, m)
  {
    sign := (a: Address, m: Bytestring) => PaddedAddress(a);
    recover := (s: Bytestring, m: Bytestring) => Some(FromBigEndian(s));
    forall a: Address, m: Bytestring | a < Pow256(20) ensures GoodSignature(sign, recover, a, m) {
      BigEndianLength(a, 20);
      BigEndianRoundTrip(a);
      LeadingZeros(SEAL_LENGTH - |BigEndian(a)|, BigEndian(a));
    }
  }

  lemma SignersCommit(validators: seq<Address>, signers: seq<Address>, msg: Bytestring,
                      sign: (Address, Bytestring) -> Bytestring, recover: (Bytestring, Bytestring) -> Option<Address>)
    requires Quorum.Distinct(signers) && forall a :: a in signers ==> GoodSignature(sign, recover, a, msg)
    requires |signers| > 2 * Quorum.MaxFaultyNodes(|validators|) && forall a :: a in signers ==> a in validators
    ensures Quorum.Committed(validators, recover, CommitSeals(signers, sign, msg), msg)
    ensures forall s :: s in CommitSeals(signers, sign, msg) ==> |s| == SEAL_LENGTH
  {
    var seals := CommitSeals(signers, sign, msg);
    forall i | 0 <= i < |seals| ensures recover(seals[i], msg) == Some(signers[i]) && |seals[i]| == SEAL_LENGTH {
      assert seals[i] == sign(signers[i], msg) && signers[i] in signers;
    }
    forall i | 0 <= i < |seals| ensures Quorum.GoodSeal(validators, recover, seals, msg, i) {
      assert signers[i] in signers;
    }
  }

  /** verifyCommitedFields on a whole header. */
  ghost predicate SealsVerify(h: Header, validators: seq<Address>, keccak: Bytestring -> Bytestring,
                              recover: (Bytestring, Bytestring) -> Option<Address>)
  {
    && GetIbftExtra(h).Some?
    && Quorum.Committed(validators, recover, GetIbftExtra(h).value.committedSeal,
                        CommitMsg(CalculateHeaderHash(h, keccak).value, keccak))
  }

  /** More than 2F different validators seal a header; the header with those seals inserted passes the
      check that the seals are valid for it. */
  lemma InsertedSealsVerify(h: Header, validators: seq<Address>, signers: seq<Address>,
                            keccak: Bytestring -> Bytestring,
                            sign: (Address, Bytestring) -> Bytestring,
                            recover: (Bytestring, Bytestring) -> Option<Address>)
    requires GetIbftExtra(h).Some?
    requires forall a :: a in signers ==>
               GoodSignature(sign, recover, a, CommitMsg(CalculateHeaderHash(h, keccak).value, keccak))
    requires Quorum.Distinct(signers) && |signers| > 2 * Quorum.MaxFaultyNodes(|validators|)
    requires forall a :: a in signers ==> a in validators
    requires GetIbftExtra(h).value.(committedSeal :=
               CommitSeals(signers, sign, CommitMsg(CalculateHeaderHash(h, keccak).value, keccak))).Fits()
    ensures var seals := CommitSeals(signers, sign, CommitMsg(CalculateHeaderHash(h, keccak).value, keccak));
            && WriteCommittedSeals(h, seals).Some?
            && SealsVerify(WriteCommittedSeals(h, seals).value, validators, keccak, recover)
  {
    var msg := CommitMsg(CalculateHeaderHash(h, keccak).value, keccak);
    var seals := CommitSeals(signers, sign, msg);
    SignersCommit(validators, signers, msg, sign, recover);
    CommittedSealsKeepHash(h, seals);
  }

  /** ecrecoverFromHeader */
  function EcrecoverFromHeader(h: Header, keccak: Bytestring -> Bytestring,
                               recover: (Bytestring, Bytestring) -> Option<Address>): Option<Address>
  {
    match CalculateHeaderHash(h, keccak)
    case None => None
    case Some(hash) => recover(GetIbftExtra(h).value.seal, hash)
  }

  /** The proposer recovered from a sealed header is the one that sealed it, also once the committed seals
      are in. */
  lemma SealerRecovered(h: Header, me: Address, keccak: Bytestring -> Bytestring,
                        sign: (Address, Bytestring) -> Bytestring,
                        vrf: Option<(Bytestring, Bytestring)>, recover: (Bytestring, Bytestring) -> Option<Address>,
                        seals: seq<Bytestring>)
    requires WriteSeal(h, keccak, m => sign(me, m), vrf).Some?
    requires GoodSignature(sign, recover, me, CalculateHeaderHash(h, keccak).value)
    requires NoEmptySeal(GetIbftExtra(h).value.committedSeal)
    requires var e := GetIbftExtra(h).value.(seal := sign(me, CalculateHeaderHash(h, keccak).value),
                                             vrfValue := vrf.value.0, vrfProof := vrf.value.1);
             e.Fits() && e.(committedSeal := seals).Fits()
    ensures var sealed := WriteSeal(h, keccak, m => sign(me, m), vrf).value;
            && EcrecoverFromHeader(sealed, keccak, recover) == Some(me)
            && (WriteCommittedSeals(sealed, seals).Some? ==>
                  EcrecoverFromHeader(WriteCommittedSeals(sealed, seals).value, keccak, recover) == Some(me))
  {
    var e := GetIbftExtra(h).value.(seal := sign(me, CalculateHeaderHash(h, keccak).value),
                                    vrfValue := vrf.value.0, vrfProof := vrf.value.1);
    var sealed := WriteSeal(h, keccak, m => sign(me, m), vrf).value;
    assert sealed == PutIbftExtra(h, e);
    SameHashInput(h, e);
    PutThenGet(h, e);
    if WriteCommittedSeals(sealed, seals).Some? {
      CommittedSealsKeepHash(sealed, seals);
    }
  }
}
