/**
 * The store keys of the EVM module: one prefix byte per kind of record,
 * followed by the address (and, for contract storage, the slot key). The
 * address-mapping keys carry the address behind a one-byte length prefix, as
 * the SDK's `MustLengthPrefix` writes it.
 *
 * Every key builder comes with the parser that takes its key apart again; the
 * round trips give injectivity, and the distinct prefix bytes keep the key
 * families apart.
 */
module EvmKeys {
  import opened Wrappers
  import opened Bytes

  const ModuleName: string := "evm"
  const StoreKey: string := ModuleName
  const TransientKey: string := "transient_" + ModuleName
  const RouterKey: string := ModuleName

  // Prefix bytes of the persistent store.
  const PrefixCode: byte := 1
  const PrefixStorage: byte := 2

  // Prefix bytes of the transient store, and of the address mappings.
  const PrefixTransientBloom: byte := 1
  const PrefixTransientTxIndex: byte := 2
  const PrefixTransientLogSize: byte := 3
  const PrefixTransientGasUsed: byte := 4
  const PrefixEvmAddressMapping: byte := 5
  const PrefixCosmosAddressMapping: byte := 6

  const KeyPrefixCode: seq<byte> := [PrefixCode]
  const KeyPrefixStorage: seq<byte> := [PrefixStorage]
  const KeyPrefixTransientBloom: seq<byte> := [PrefixTransientBloom]
  const KeyPrefixTransientTxIndex: seq<byte> := [PrefixTransientTxIndex]
  const KeyPrefixTransientLogSize: seq<byte> := [PrefixTransientLogSize]
  const KeyPrefixTransientGasUsed: seq<byte> := [PrefixTransientGasUsed]
  const EvmAddressMappingStoreKeyPrefix: seq<byte> := [PrefixEvmAddressMapping]
  const CosmosAddressMappingStoreKeyPrefix: seq<byte> := [PrefixCosmosAddressMapping]

  /** An Ethereum address: exactly 20 bytes. */
  const AddressLength: nat := 20
  type Address = s: seq<byte> | |s| == AddressLength witness seq(20, _ => 0)

  /** The longest address the SDK will length-prefix. */
  const MaxAddrLen: nat := 255

  // ---------------------------------------------------------------------------
  // Length prefixing
  // ---------------------------------------------------------------------------

  /**
   * The SDK's `LengthPrefix`: an empty address is returned as it is, a longer one gets its
   * length as a leading byte, and one longer than MaxAddrLen is an error.
   */
  function LengthPrefix(bz: seq<byte>): (r: Option<seq<byte>>)
    ensures r.None? <==> |bz| > MaxAddrLen
    ensures r.Some? ==> |r.value| == (if bz == [] then 0 else 1 + |bz|)
  {
    if bz == [] then Some(bz)
    else if |bz| > MaxAddrLen then None
    else Some([|bz| as byte] + bz)
  }

  /** The SDK's `MustLengthPrefix`: LengthPrefix, which panics on the error; callers pass at most MaxAddrLen bytes. */
  function MustLengthPrefix(bz: seq<byte>): (r: seq<byte>)
    requires |bz| <= MaxAddrLen
    ensures LengthPrefix(bz) == Some(r)
  {
    LengthPrefix(bz).value
  }

  /** Reading a length-prefixed address back: the whole input must be the length byte and that many bytes. */
  function ParseLengthPrefixed(s: seq<byte>): (r: Option<seq<byte>>)
    ensures r.Some? ==> |r.value| <= MaxAddrLen
  {
    if s == [] then Some([])
    else if s[0] == 0 || s[0] != |s| - 1 then None
    else Some(s[1..])
  }

  /** Length prefixing is undone by parsing, and a parsed input is exactly the prefixing of its result. */
  lemma LengthPrefixRoundTrip(bz: seq<byte>, s: seq<byte>)
    requires |bz| <= MaxAddrLen
    ensures ParseLengthPrefixed(MustLengthPrefix(bz)) == Some(bz)
    ensures ParseLengthPrefixed(s).Some? ==> MustLengthPrefix(ParseLengthPrefixed(s).value) == s
  {
    if bz != [] {
      assert MustLengthPrefix(bz)[1..] == bz;
    }
    if s != [] && ParseLengthPrefixed(s).Some? {
      assert [s[0]] + s[1..] == s;
    }
  }

  // ---------------------------------------------------------------------------
  // Key builders
  // ---------------------------------------------------------------------------

  /** `AddressStoragePrefix`: the storage prefix byte followed by the address. */
  function AddressStoragePrefix(address: Address): (r: seq<byte>)
    ensures |r| == 1 + AddressLength
    ensures r[0] == PrefixStorage && r[1..] == address
  {
    KeyPrefixStorage + address
  }

  /** `StateKey`: the account's storage prefix followed by the slot key. */
  function StateKey(address: Address, key: seq<byte>): (r: seq<byte>)
    ensures |r| == 1 + AddressLength + |key|
    ensures r[..1 + AddressLength] == AddressStoragePrefix(address)
    ensures r[1 + AddressLength..] == key
  {
    AddressStoragePrefix(address) + key
  }

  /** `EvmAddressMappingStoreKey`: the EVM-mapping prefix byte followed by the length-prefixed cosmos address. */
  function EvmAddressMappingStoreKey(cosmosAddress: seq<byte>): (r: seq<byte>)
    requires |cosmosAddress| <= MaxAddrLen
    ensures |r| == (if cosmosAddress == [] then 1 else 2 + |cosmosAddress|)
    ensures r[0] == PrefixEvmAddressMapping
  {
    EvmAddressMappingStoreKeyPrefix + MustLengthPrefix(cosmosAddress)
  }

  /** `CosmosAddressMappingStoreKey`: the Cosmos-mapping prefix byte followed by the length-prefixed EVM address. */
  function CosmosAddressMappingStoreKey(evmAddress: Address): (r: seq<byte>)
    ensures |r| == 2 + AddressLength
    ensures r[0] == PrefixCosmosAddressMapping && r[1] == AddressLength as byte
    ensures r[2..] == evmAddress
  {
    CosmosAddressMappingStoreKeyPrefix + MustLengthPrefix(evmAddress)
  }

  // ---------------------------------------------------------------------------
  // Key parsers and round trips
  // ---------------------------------------------------------------------------

  /** The account and slot key of a state key, or None when the key is not in the storage family. */
  function ParseStateKey(k: seq<byte>): (r: Option<(Address, seq<byte>)>)
  {
    if |k| < 1 + AddressLength || k[0] != PrefixStorage then None
    else Some((k[1..1 + AddressLength], k[1 + AddressLength..]))
  }

  /** The cosmos address of an EVM-mapping key, or None when the key is not one. */
  function ParseEvmAddressMappingStoreKey(k: seq<byte>): (r: Option<seq<byte>>)
  {
    if |k| < 1 || k[0] != PrefixEvmAddressMapping then None
    else ParseLengthPrefixed(k[1..])
  }

  /** The EVM address of a Cosmos-mapping key, or None when the key is not one. */
  function ParseCosmosAddressMappingStoreKey(k: seq<byte>): (r: Option<Address>)
  {
    if |k| != 2 + AddressLength || k[0] != PrefixCosmosAddressMapping || k[1] != AddressLength then None
    else Some(k[2..])
  }

  /** A state key parses back to its account and slot key; whatever parses is the state key of what it parses to. */
  lemma StateKeyRoundTrip(address: Address, key: seq<byte>, k: seq<byte>)
    ensures ParseStateKey(StateKey(address, key)) == Some((address, key))
    ensures ParseStateKey(k).Some? ==> StateKey(ParseStateKey(k).value.0, ParseStateKey(k).value.1) == k
  {
    var s := StateKey(address, key);
    assert s[1..1 + AddressLength] == s[..1 + AddressLength][1..];
    if ParseStateKey(k).Some? {
      assert k == [k[0]] + k[1..1 + AddressLength] + k[1 + AddressLength..];
    }
  }

  /** An EVM-mapping key parses back to its cosmos address; whatever parses is the key of what it parses to. */
  lemma EvmAddressMappingRoundTrip(cosmosAddress: seq<byte>, k: seq<byte>)
    requires |cosmosAddress| <= MaxAddrLen
    ensures ParseEvmAddressMappingStoreKey(EvmAddressMappingStoreKey(cosmosAddress)) == Some(cosmosAddress)
    ensures ParseEvmAddressMappingStoreKey(k).Some? ==>
      EvmAddressMappingStoreKey(ParseEvmAddressMappingStoreKey(k).value) == k
  {
    LengthPrefixRoundTrip(cosmosAddress, if k == [] then [] else k[1..]);
    assert EvmAddressMappingStoreKey(cosmosAddress)[1..] == MustLengthPrefix(cosmosAddress);
    if ParseEvmAddressMappingStoreKey(k).Some? {
      assert [k[0]] + k[1..] == k;
    }
  }

  /** A Cosmos-mapping key parses back to its EVM address; whatever parses is the key of what it parses to. */
  lemma CosmosAddressMappingRoundTrip(evmAddress: Address, k: seq<byte>)
    ensures ParseCosmosAddressMappingStoreKey(CosmosAddressMappingStoreKey(evmAddress)) == Some(evmAddress)
    ensures ParseCosmosAddressMappingStoreKey(k).Some? ==>
      CosmosAddressMappingStoreKey(ParseCosmosAddressMappingStoreKey(k).value) == k
  {
    if ParseCosmosAddressMappingStoreKey(k).Some? {
      assert [k[0]] + [k[1]] + k[2..] == k;
    }
  }

  // ---------------------------------------------------------------------------
  // Injectivity, prefixes and separation
  // ---------------------------------------------------------------------------

  /** Distinct (account, slot key) pairs have distinct state keys: the address is fixed-width behind a fixed byte. */
  lemma StateKeyInjective(a1: Address, k1: seq<byte>, a2: Address, k2: seq<byte>)
    ensures StateKey(a1, k1) == StateKey(a2, k2) <==> a1 == a2 && k1 == k2
  {
    StateKeyRoundTrip(a1, k1, []);
    StateKeyRoundTrip(a2, k2, []);
  }

  /** Distinct cosmos addresses, of any lengths, have distinct EVM-mapping keys, thanks to the length byte. */
  lemma EvmAddressMappingInjective(c1: seq<byte>, c2: seq<byte>)
    requires |c1| <= MaxAddrLen && |c2| <= MaxAddrLen
    ensures EvmAddressMappingStoreKey(c1) == EvmAddressMappingStoreKey(c2) <==> c1 == c2
  {
    EvmAddressMappingRoundTrip(c1, []);
    EvmAddressMappingRoundTrip(c2, []);
  }

  /** Distinct EVM addresses have distinct Cosmos-mapping keys. */
  lemma CosmosAddressMappingInjective(e1: Address, e2: Address)
    ensures CosmosAddressMappingStoreKey(e1) == CosmosAddressMappingStoreKey(e2) <==> e1 == e2
  {
    CosmosAddressMappingRoundTrip(e1, []);
    CosmosAddressMappingRoundTrip(e2, []);
  }

  /** Within each store the prefix bytes are distinct, so each record kind has its own key range. */
  lemma PrefixesDistinct()
    ensures PrefixCode != PrefixStorage
    ensures |{PrefixTransientBloom, PrefixTransientTxIndex, PrefixTransientLogSize, PrefixTransientGasUsed,
              PrefixEvmAddressMapping, PrefixCosmosAddressMapping}| == 6
  {
  }

  /** A key starts with an account's storage prefix exactly when it is a state key of that account. */
  lemma StoragePrefixSelectsAccount(address: Address, k: seq<byte>)
    ensures (|k| >= 1 + AddressLength && k[..1 + AddressLength] == AddressStoragePrefix(address))
      <==> ParseStateKey(k).Some? && ParseStateKey(k).value.0 == address
  {
    var p := AddressStoragePrefix(address);
    if |k| >= 1 + AddressLength && k[..1 + AddressLength] == p {
      assert k[0] == p[0];
      assert k[1..1 + AddressLength] == p[1..];
    }
    if ParseStateKey(k).Some? && ParseStateKey(k).value.0 == address {
      assert k[..1 + AddressLength] == [k[0]] + k[1..1 + AddressLength];
    }
  }

  /** State keys, EVM-mapping keys and Cosmos-mapping keys never coincide: their first bytes are 2, 5 and 6. */
  lemma KeyFamiliesDisjoint(address: Address, key: seq<byte>, cosmosAddress: seq<byte>, evmAddress: Address)
    requires |cosmosAddress| <= MaxAddrLen
    ensures StateKey(address, key) != EvmAddressMappingStoreKey(cosmosAddress)
    ensures StateKey(address, key) != CosmosAddressMappingStoreKey(evmAddress)
    ensures EvmAddressMappingStoreKey(cosmosAddress) != CosmosAddressMappingStoreKey(evmAddress)
    ensures ParseStateKey(EvmAddressMappingStoreKey(cosmosAddress)).None?
    ensures ParseStateKey(CosmosAddressMappingStoreKey(evmAddress)).None?
    ensures ParseEvmAddressMappingStoreKey(StateKey(address, key)).None?
    ensures ParseCosmosAddressMappingStoreKey(StateKey(address, key)).None?
  {
    assert StateKey(address, key)[0] == PrefixStorage;
  }
}
