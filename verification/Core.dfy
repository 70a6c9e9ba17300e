/** The shared data of the scheduler: accounts, transactions, bundles, worker assignments,
    and the unsigned 64-bit arithmetic the pricing rules use. */
module Core {

  const U64_MAX: int := 0xFFFF_FFFF_FFFF_FFFF

  const U64_MODULUS: int := 0x1_0000_0000_0000_0000

  type u64 = x: int | 0 <= x <= U64_MAX

  /** A 32-byte account key, read as one number. */
  newtype Pubkey = k: int |
    0 <= k < 0x1_00000000_00000000_00000000_00000000_00000000_00000000_00000000_00000000

  datatype Option<+T> = None | Some(value: T)

  datatype Result<+T, +E> = Ok(value: T) | Err(error: E)

  datatype LockError = LockAcquisitionFailed

  datatype AccountMeta = AccountMeta(pubkey: Pubkey, isWritable: bool)

  datatype Transaction = Transaction(
    signature: string,
    accounts: seq<AccountMeta>,
    computeUnitLimit: u64,
    computeUnitPrice: u64)
  {
    /** One of the account entries names `key`. */
    predicate Lists(key: Pubkey) {
      exists i :: 0 <= i < |accounts| && accounts[i].pubkey == key
    }

    function AllAccounts(): set<Pubkey> {
      set a | a in accounts :: a.pubkey
    }

    /** The fee the transaction offers: price per million compute units times the limit. */
    function PriorityScore(): u64 {
      SaturatingMul(computeUnitPrice, computeUnitLimit) / 1_000_000
    }
  }

  datatype Bundle = Bundle(id: u64, transactions: seq<Transaction>, tip: u64) {
    /** One of the transactions names `key`. */
    predicate Lists(key: Pubkey) {
      exists t :: t in transactions && t.Lists(key)
    }

    function AllAccounts(): set<Pubkey> {
      set t, a | t in transactions && a in t.AllAccounts() :: a
    }

    /** The sum of the limits; the iterator's u64 `sum` wraps in a release build. */
    function TotalComputeUnits(): u64 {
      SumOfLimits(transactions)
    }
  }

  datatype SchedulableUnit = BundleUnit(bundle: Bundle) | TransactionUnit(transaction: Transaction) {
    function ComputeUnits(): u64 {
      match this
      case BundleUnit(b) => b.TotalComputeUnits()
      case TransactionUnit(t) => t.computeUnitLimit
    }

    function PriorityScore(): u64 {
      match this
      case BundleUnit(b) => b.tip
      case TransactionUnit(t) => t.PriorityScore()
    }
  }

  datatype WorkerAssignment = WorkerAssignment(unitId: string, workerId: nat, isBundle: bool)

  function SumOfLimits(txs: seq<Transaction>): u64 {
    if txs == [] then 0 else WrappingAdd(txs[0].computeUnitLimit, SumOfLimits(txs[1..]))
  }

  /** Compute units of consecutive lists of transactions add up, modulo 2^64. */
  lemma {:induction false} LimitsAddUp(first: seq<Transaction>, second: seq<Transaction>)
    ensures SumOfLimits(first + second) == (SumOfLimits(first) + SumOfLimits(second)) % U64_MODULUS
  {
    if first == [] {
      assert first + second == second;
    } else {
      LimitsAddUp(first[1..], second);
      var rest, limit := first[1..], first[0].computeUnitLimit;
      assert (first + second)[0] == first[0] && (first + second)[1..] == rest + second;
      WrappedSum(first[0].computeUnitLimit, SumOfLimits(first[1..]), SumOfLimits(second));
    }
  }

  /** A bundle of one transaction has that transaction's limit, and joining two bundles adds theirs. */
  lemma TotalsAddUp(t: Transaction, one: Bundle, two: Bundle, joined: Bundle)
    requires joined.transactions == one.transactions + two.transactions
    ensures one.transactions == [t] ==> one.TotalComputeUnits() == t.computeUnitLimit
    ensures joined.TotalComputeUnits() == (one.TotalComputeUnits() + two.TotalComputeUnits()) % U64_MODULUS
  {
    LimitsAddUp(one.transactions, two.transactions);
    assert one.transactions == [t] ==> SumOfLimits(one.transactions[1..]) == 0;
  }

  lemma WrappedSum(a: nat, b: nat, c: nat)
    ensures (a + (b + c) % U64_MODULUS) % U64_MODULUS == ((a + b) % U64_MODULUS + c) % U64_MODULUS
  {
  }

  function WrappingAdd(a: u64, b: u64): u64 {
    (a + b) % U64_MODULUS
  }

  function SaturatingMul(a: u64, b: u64): u64 {
    if a * b > U64_MAX then U64_MAX else a * b
  }

  function AtLeastOne(x: u64): u64 {
    if x == 0 then 1 else x
  }

  /** The decimal text of a number, as `to_string` writes it. */
  function Decimal(n: nat): string {
    if n < 10 then ["0123456789"[n]] else Decimal(n / 10) + ["0123456789"[n % 10]]
  }

  function ElementsOf<T>(s: seq<T>): set<T> {
    set x | x in s
  }

  /** The number a decimal text stands for. */
  function Value(text: string): int {
    if text == [] then 0 else 10 * Value(text[..|text| - 1]) + (text[|text| - 1] as int - '0' as int)
  }

  /** Reading a decimal text back gives the number, so different numbers have different texts. */
  lemma {:induction false} DecimalReadsBack(n: nat)
    ensures |Decimal(n)| > 0 && Value(Decimal(n)) == n
    decreases n
  {
    DigitReadsBack(n % 10);
    if n < 10 {
      assert Decimal(n)[..0] == [];
    } else {
      DecimalReadsBack(n / 10);
      assert Decimal(n)[..|Decimal(n)| - 1] == Decimal(n / 10);
    }
  }

  lemma DigitReadsBack(d: nat)
    requires d < 10
    ensures "0123456789"[d] as int - '0' as int == d
  {
  }

  /** The accounts of a transaction or bundle are exactly the keys its entries name. */
  lemma TransactionAccountsAreListed(t: Transaction, key: Pubkey)
    ensures key in t.AllAccounts() <==> t.Lists(key)
  {
    if t.Lists(key) {
      var i :| 0 <= i < |t.accounts| && t.accounts[i].pubkey == key;
      assert t.accounts[i] in t.accounts;
    }
  }

  lemma BundleAccountsAreListed(b: Bundle, key: Pubkey)
    ensures key in b.AllAccounts() <==> b.Lists(key)
  {
    forall t | t in b.transactions ensures key in t.AllAccounts() <==> t.Lists(key) {
      TransactionAccountsAreListed(t, key);
    }
  }
}
