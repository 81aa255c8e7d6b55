/** The two interfaces of a StateDB: the keeper it reads from, and the calls the EVM makes on it. */
module Interfaces {
  import opened EvmTypes

  /** `statedb.Account`. */
  datatype Account = Account(nonce: uint64, balance: int, codeHash: Hash)

  /** `statedb.TxConfig`. */
  datatype TxConfig = TxConfig(blockHash: Hash, txHash: Hash, txIndex: uint64, logIndex: uint64)

  /**
   * What a StateDB sees while it runs: the hash function, the reads of the keeper interface
   * (`GetAccount`, `GetState`, `GetCode`), which no call changes, and the transaction.
   */
  datatype Env = Env(
    keccak: Bytes -> Hash,
    accounts: map<Address, Account>,
    state: (Address, Hash) -> Hash,
    code: Hash -> Option<Bytes>,
    tx: TxConfig)
  {
    /** `emptyCodeHash`, the hash of no code at all. */
    function EmptyCodeHash(): Hash {
      keccak([])
    }
  }

  /** The part of a log the EVM supplies. */
  datatype LogData = LogData(address: Address, topics: seq<Hash>, data: Bytes)

  datatype Log = Log(body: LogData, txHash: Hash, blockHash: Hash, txIndex: uint64, index: uint64)

  datatype AccessTuple = AccessTuple(address: Address, storageKeys: seq<Hash>)

  datatype Call =
    // queries
    | Exist(addr: Address)
    | Empty(addr: Address)
    | GetBalance(addr: Address)
    | GetNonce(addr: Address)
    | GetCode(addr: Address)
    | GetCodeSize(addr: Address)
    | GetCodeHash(addr: Address)
    | GetState(addr: Address, key: Hash)
    | GetCommittedState(addr: Address, key: Hash)
    | HasSuicided(addr: Address)
    | GetRefund
    | Logs
    | AddressInAccessList(addr: Address)
    | SlotInAccessList(addr: Address, slot: Hash)
    // account changes
    | CreateAccount(addr: Address)
    | AddBalance(addr: Address, amount: int)
    | SubBalance(addr: Address, amount: int)
    | SetNonce(addr: Address, nonce: uint64)
    | SetCode(addr: Address, code: Option<Bytes>)
    | SetState(addr: Address, key: Hash, value: Hash)
    | Suicide(addr: Address)
    // other changes
    | AddLog(body: LogData)
    | AddRefund(gas: uint64)
    | SubRefund(gas: uint64)
    | AddAddressToAccessList(addr: Address)
    | AddSlotToAccessList(addr: Address, slot: Hash)
    | PrepareAccessList(sender: Address, dst: Option<Address>, precompiles: seq<Address>, list: seq<AccessTuple>)
    // revisions
    | Snapshot
    | RevertToSnapshot(revid: int)

  datatype Answer =
    | Done
    | Flag(flag: bool)
    | Presence(address: bool, slot: bool)
    | Number(number: int)
    | Code(code: Option<Bytes>)
    | Value(hash: Hash)
    | LogList(logs: seq<Log>)
    | Panic

  function CodeBytes(code: Option<Bytes>): Bytes {
    if code.Some? then code.value else []
  }

  /** The log record of `AddLog`: stamped with the transaction and numbered after `count` earlier logs. */
  function Stamp(tx: TxConfig, body: LogData, count: nat): Log {
    Log(body, tx.txHash, tx.blockHash, tx.txIndex, (tx.logIndex + count) % U64)
  }
}
