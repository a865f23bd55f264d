/** The state adapter handed to the EVM: accounts whose storage maps are shared references changed
    in place, and a stack of deep-copied snapshots. */
module EvmState {

  const UINT256 := 0x1_0000000000000000_0000000000000000_0000000000000000_0000000000000000
  const ZERO_HASH := "0x0"

  datatype Balance = Unset | Wei(amount: nat)

  /** A storage map: a reference, so two accounts holding it see the same writes. */
  class Storage {
    var slots: map<string, string>

    constructor ()
      ensures slots == map[]
    {
      slots := map[];
    }
  }

  datatype Account = Account(nonce: nat, balance: Balance, code: string, storage: Storage?)

  // ----- the adapter as a value ------------------------------------------------------------------

  datatype AccountView = AccountView(nonce: nat, balance: Balance, code: string, storage: map<string, string>)
  datatype View = View(accounts: map<string, AccountView>, snapshots: seq<map<string, AccountView>>)

  const EMPTY_ACCOUNT := AccountView(0, Unset, "", map[])

  datatype Op =
    | CreateAccount(addr: string)
    | AddBalance(addr: string, amount: nat)
    | SubBalance(addr: string, amount: nat)
    | SetNonce(addr: string, nonce: nat)
    | SetCode(addr: string, code: string)
    | SetState(addr: string, key: string, value: string)
    | SelfDestruct(addr: string)
    | Snapshot
    | RevertToSnapshot(id: int)

  function Lookup(accounts: map<string, AccountView>, addr: string): AccountView {
    if addr in accounts then accounts[addr] else EMPTY_ACCOUNT
  }

  function Amount(b: Balance): nat {
    match b
    case Unset => 0
    case Wei(n) => n
  }

  function Plus(b: Balance, amount: nat): Balance {
    Wei((Amount(b) + amount) % UINT256)
  }

  function Minus(b: Balance, amount: nat): Balance {
    Wei(if Amount(b) < amount then 0 else Amount(b) - amount)
  }

  function Exec(v: View, op: Op): View {
    match op
    case CreateAccount(a) => if a in v.accounts then v else v.(accounts := v.accounts[a := EMPTY_ACCOUNT])
    case AddBalance(a, n) =>
      var acc := Lookup(v.accounts, a);
      v.(accounts := v.accounts[a := acc.(balance := Plus(acc.balance, n))])
    case SubBalance(a, n) =>
      var acc := Lookup(v.accounts, a);
      v.(accounts := v.accounts[a := acc.(balance := Minus(acc.balance, n))])
    case SetNonce(a, n) => v.(accounts := v.accounts[a := Lookup(v.accounts, a).(nonce := n)])
    case SetCode(a, c) => v.(accounts := v.accounts[a := Lookup(v.accounts, a).(code := c)])
    case SetState(a, k, x) =>
      var acc := Lookup(v.accounts, a);
      v.(accounts := v.accounts[a := acc.(storage := acc.storage[k := x])])
    case SelfDestruct(a) => v.(accounts := v.accounts[a := Lookup(v.accounts, a).(code := "", storage := map[])])
    case Snapshot => v.(snapshots := v.snapshots + [v.accounts])
    case RevertToSnapshot(id) =>
      if id < 0 || id >= |v.snapshots| then v else View(v.snapshots[id], v.snapshots[..id])
  }

  function ExecAll(v: View, ops: seq<Op>): View
    decreases |ops|
  {
    if ops == [] then v else ExecAll(Exec(v, ops[0]), ops[1..])
  }

  /** Reverts only to snapshots taken after number id. */
  predicate RevertsAbove(ops: seq<Op>, id: int) {
    forall i :: 0 <= i < |ops| && ops[i].RevertToSnapshot? ==> ops[i].id > id || ops[i].id < 0
  }

  lemma {:induction false} EarlierSnapshotsKept(v: View, ops: seq<Op>, id: nat)
    requires id < |v.snapshots| && RevertsAbove(ops, id)
    ensures id < |ExecAll(v, ops).snapshots|
    ensures ExecAll(v, ops).snapshots[..id + 1] == v.snapshots[..id + 1]
    decreases |ops|
  {
    if ops != [] {
      EarlierSnapshotsKept(Exec(v, ops[0]), ops[1..], id);
    }
  }

  /** Reverting to a snapshot restores the accounts, all storage and the snapshot stack that were
      there when it was taken, whatever was done and however snapshots were nested in between. */
  lemma RevertRestores(v: View, ops: seq<Op>)
    requires RevertsAbove(ops, |v.snapshots|)
    ensures Exec(ExecAll(Exec(v, Snapshot), ops), RevertToSnapshot(|v.snapshots|)) == v
  {
    var id := |v.snapshots|;
    var taken := Exec(v, Snapshot);
    var end := ExecAll(taken, ops);
    EarlierSnapshotsKept(taken, ops, id);
    assert end.snapshots[id] == end.snapshots[..id + 1][id] == v.accounts;
    assert end.snapshots[..id] == end.snapshots[..id + 1][..id] == v.snapshots;
  }

  // ----- what each operation does --------------------------------------------------------------

  /** The account an operation is about, if it is about one. */
  function Target(op: Op): set<string> {
    match op
    case CreateAccount(a) => {a}
    case AddBalance(a, _) => {a}
    case SubBalance(a, _) => {a}
    case SetNonce(a, _) => {a}
    case SetCode(a, _) => {a}
    case SetState(a, _, _) => {a}
    case SelfDestruct(a) => {a}
    case Snapshot => {}
    case RevertToSnapshot(_) => {}
  }

  /** An operation about one account leaves every other account and all snapshots alone; a snapshot
      leaves all accounts. */
  lemma OnlyTarget(v: View, op: Op, other: string)
    requires other !in Target(op) && !op.RevertToSnapshot?
    ensures other in Exec(v, op).accounts <==> other in v.accounts
    ensures Lookup(Exec(v, op).accounts, other) == Lookup(v.accounts, other)
    ensures !op.Snapshot? ==> Exec(v, op).snapshots == v.snapshots
  {
  }

  /** Credits are exact modulo 2^256, debits exact down to zero, and neither changes anything else of
      the account; a debit of what was credited gives back the balance it had. */
  lemma BalancesMove(v: View, a: string, n: nat)
    requires Amount(Lookup(v.accounts, a).balance) < UINT256
    ensures var was, up, down := Lookup(v.accounts, a), Lookup(Exec(v, AddBalance(a, n)).accounts, a),
                                 Lookup(Exec(v, SubBalance(a, n)).accounts, a);
            && up == was.(balance := up.balance) && down == was.(balance := down.balance)
            && Amount(up.balance) < UINT256
            && (Amount(was.balance) + n < UINT256 ==> Amount(up.balance) == Amount(was.balance) + n)
            && (Amount(was.balance) + n - UINT256 >= 0 && n < UINT256 ==>
                  Amount(up.balance) == Amount(was.balance) + n - UINT256)
            && (n <= Amount(was.balance) ==> Amount(down.balance) + n == Amount(was.balance))
            && (n > Amount(was.balance) ==> Amount(down.balance) == 0)
  {
  }

  lemma CreditThenDebit(v: View, a: string, n: nat)
    requires Amount(Lookup(v.accounts, a).balance) + n < UINT256
    ensures Amount(Lookup(ExecAll(v, [AddBalance(a, n), SubBalance(a, n)]).accounts, a).balance)
         == Amount(Lookup(v.accounts, a).balance)
  {
    var credited := Exec(v, AddBalance(a, n));
    var ops := [AddBalance(a, n), SubBalance(a, n)];
    assert ops[0] == AddBalance(a, n) && ops[1..] == [SubBalance(a, n)] && ops[1..][1..] == [];
    assert ExecAll(credited, ops[1..]) == ExecAll(Exec(credited, SubBalance(a, n)), ops[1..][1..]);
    BalancesMove(v, a, n);
    BalancesMove(credited, a, n);
  }

  /** What is written is read back, and the rest of the account stays. */
  lemma WritesRead(v: View, a: string, nonce: nat, code: string, key: string, value: string, other: string)
    ensures var was := Lookup(v.accounts, a);
            var set1 := Lookup(Exec(v, SetNonce(a, nonce)).accounts, a);
            var set2 := Lookup(Exec(v, SetCode(a, code)).accounts, a);
            var set3 := Lookup(Exec(v, SetState(a, key, value)).accounts, a);
            && set1.nonce == nonce && set1 == was.(nonce := set1.nonce)
            && set2.code == code && set2 == was.(code := set2.code)
            && set3 == was.(storage := set3.storage)
            && key in set3.storage && set3.storage[key] == value
            && (other != key ==> (other in set3.storage <==> other in was.storage))
            && (other != key && other in was.storage ==> set3.storage[other] == was.storage[other])
  {
  }

  /** Self-destruction clears code and storage and keeps nonce and balance; creation changes nothing
      that exists and makes an empty account otherwise. */
  lemma LifeAndDeath(v: View, a: string)
    ensures var was, dead, made := Lookup(v.accounts, a), Lookup(Exec(v, SelfDestruct(a)).accounts, a),
                                   Exec(v, CreateAccount(a)).accounts;
            && dead.nonce == was.nonce && dead.balance == was.balance && dead.code == "" && dead.storage == map[]
            && a in made && Lookup(made, a) == was
            && (a !in v.accounts ==> made[a].nonce == 0 && Amount(made[a].balance) == 0
                                     && made[a].code == "" && made[a].storage == map[])
  {
  }

  lemma {:induction false} ExecAllLast(v: View, ops: seq<Op>)
    requires ops != []
    ensures ExecAll(v, ops) == Exec(ExecAll(v, ops[..|ops| - 1]), ops[|ops| - 1])
    decreases |ops|
  {
    hide Exec;
    var init := ops[..|ops| - 1];
    if |ops| > 1 {
      ExecAllLast(Exec(v, ops[0]), ops[1..]);
      assert ops[1..][..|ops| - 2] == init[1..] && init[0] == ops[0];
    }
  }

  /** What number id holds: the accounts at the last Snapshot of the run that returned it, else what
      it held at the start. */
  function LastHeld(v: View, ops: seq<Op>, id: nat): map<string, AccountView>
    decreases |ops|
  {
    if ops == [] then if id < |v.snapshots| then v.snapshots[id] else map[]
    else
      var before, last := ExecAll(v, ops[..|ops| - 1]), ops[|ops| - 1];
      if last.Snapshot? && |before.snapshots| == id then before.accounts
      else LastHeld(v, ops[..|ops| - 1], id)
  }

  /** Whatever the run reverts to in between: a live snapshot number holds the accounts of the last
      Snapshot that returned it, or what it held at the start. */
  lemma {:induction false} SnapshotHoldsLast(v: View, ops: seq<Op>, id: nat)
    requires id < |ExecAll(v, ops).snapshots|
    ensures ExecAll(v, ops).snapshots[id] == LastHeld(v, ops, id)
    decreases |ops|
  {
    if ops != [] {
      var before, last := ExecAll(v, ops[..|ops| - 1]), ops[|ops| - 1];
      ExecAllLast(v, ops);
      if !(last.Snapshot? && |before.snapshots| == id) {
        SnapshotKept(before, last, id);
        SnapshotHoldsLast(v, ops[..|ops| - 1], id);
      }
    }
  }

  lemma SnapshotKept(v: View, op: Op, id: nat)
    requires id < |Exec(v, op).snapshots| && !(op.Snapshot? && |v.snapshots| == id)
    ensures id < |v.snapshots| && Exec(v, op).snapshots[id] == v.snapshots[id]
  {
  }

  /** Reverting restores exactly the accounts of the last Snapshot that returned the number, and the
      snapshots below it are still those last taken under their numbers: for every run. */
  lemma RevertRestoresLast(v: View, ops: seq<Op>, id: nat)
    requires id < |ExecAll(v, ops).snapshots|
    ensures var end := Exec(ExecAll(v, ops), RevertToSnapshot(id));
            && end.accounts == LastHeld(v, ops, id) && |end.snapshots| == id
            && forall i :: 0 <= i < id ==> end.snapshots[i] == LastHeld(v, ops, i)
  {
    hide LastHeld, ExecAll;
    forall i: nat | i <= id ensures ExecAll(v, ops).snapshots[i] == LastHeld(v, ops, i) {
      SnapshotHoldsLast(v, ops, i);
    }
  }

  // ----- the adapter on the heap -----------------------------------------------------------------

  ghost function Storages(m: map<string, Account>): set<Storage> {
    set a | a in m && m[a].storage != null :: m[a].storage
  }

  ghost function ViewAccount(a: Account): AccountView
    reads a.storage
  {
    AccountView(a.nonce, a.balance, a.code, if a.storage == null then map[] else a.storage.slots)
  }

  ghost function ViewAccounts(m: map<string, Account>): map<string, AccountView>
    reads Storages(m)
  {
    map a | a in m :: ViewAccount(m[a])
  }

  /** No two accounts of one map share a storage. */
  ghost predicate Unshared(m: map<string, Account>) {
    forall a, b :: a in m && b in m && a != b && m[a].storage != null ==> m[a].storage != m[b].storage
  }

  method CopyStorage(from: Storage) returns (to: Storage)
    ensures fresh(to) && to.slots == from.slots
  {
    to := new Storage();
    var left := from.slots.Keys;
    while left != {}
      invariant fresh(to) && left <= from.slots.Keys
      invariant to.slots.Keys == from.slots.Keys - left
      invariant forall k :: k in to.slots ==> k in from.slots && to.slots[k] == from.slots[k]
      decreases left
    {
      var k :| k in left;
      to.slots := to.slots[k := from.slots[k]];
      left := left - {k};
    }
  }

  method CopyAccounts(m: map<string, Account>) returns (out: map<string, Account>)
    ensures fresh(Storages(out)) && Unshared(out)
    ensures ViewAccounts(out) == ViewAccounts(m)
  {
    out := map[];
    var left := m.Keys;
    while left != {}
      invariant left <= m.Keys && out.Keys == m.Keys - left
      invariant fresh(Storages(out)) && Unshared(out)
      invariant forall a :: a in out ==> a in m && ViewAccount(out[a]) == ViewAccount(m[a])
      decreases left
    {
      var a :| a in left;
      var copied := m[a];
      if copied.storage != null {
        var s := CopyStorage(copied.storage);
        copied := copied.(storage := s);
      }
      assert forall b :: b in out && out[b].storage != null ==> out[b].storage in Storages(out);
      out := out[a := copied];
      left := left - {a};
    }
  }

  class Adapter {
    var accounts: map<string, Account>
    var snapshots: seq<map<string, Account>>

    /** Live storages are unshared, and no snapshot holds a live storage. */
    ghost predicate Valid()
      reads this
    {
      && Unshared(accounts)
      && forall i :: 0 <= i < |snapshots| ==> Storages(snapshots[i]) !! Storages(accounts)
    }

    ghost function Reach(): set<Storage>
      reads this
    {
      Storages(accounts) + set i, s | 0 <= i < |snapshots| && s in Storages(snapshots[i]) :: s
    }

    ghost function Contents(): View
      reads this, Reach()
    {
      View(ViewAccounts(accounts),
           seq(|snapshots|, i requires 0 <= i < |snapshots| reads this, Reach() => ViewAccounts(snapshots[i])))
    }

    constructor (initial: map<string, Account>)
      requires Unshared(initial)
      ensures Valid() && accounts == initial && snapshots == []
    {
      accounts, snapshots := initial, [];
    }

    /** The account record at addr, with a storage map made up when it has none. */
    method Fetch(addr: string) returns (acc: Account)
      requires Valid()
      ensures acc.storage != null && ViewAccount(acc) == Lookup(ViewAccounts(accounts), addr)
      ensures acc.storage !in Reach() || (addr in accounts && acc.storage == accounts[addr].storage)
      ensures acc.storage in Storages(accounts) || fresh(acc.storage)
      ensures Contents() == old(Contents()) && ViewAccounts(accounts) == old(ViewAccounts(accounts))
    {
      acc := if addr in accounts then accounts[addr] else Account(0, Unset, "", null);
      if acc.storage == null {
        var s := new Storage();
        acc := acc.(storage := s);
      }
    }

    method Put(addr: string, acc: Account)
      requires Valid() && acc.storage != null
      requires acc.storage !in Reach() || (addr in accounts && acc.storage == accounts[addr].storage)
      modifies this`accounts
      ensures Valid() && accounts == old(accounts)[addr := acc]
      ensures Storages(accounts) <= old(Storages(accounts)) + {acc.storage}
      ensures Contents() == old(Contents()).(accounts := old(ViewAccounts(accounts))[addr := old(ViewAccount(acc))])
    {
      accounts := accounts[addr := acc];
    }

    predicate Exist(addr: string)
      reads this
    {
      addr in accounts
    }

    method CreateAccount(addr: string)
      requires Valid()
      modifies this`accounts
      ensures Valid() && Contents() == Exec(old(Contents()), Op.CreateAccount(addr))
      ensures fresh(Storages(accounts) - old(Storages(accounts)))
    {
      if !Exist(addr) {
        var s := new Storage();
        Put(addr, Account(0, Unset, "", s));
      }
    }

    method AddBalance(addr: string, amount: nat) returns (balance: nat)
      requires Valid()
      modifies this`accounts
      ensures Valid() && Contents() == Exec(old(Contents()), Op.AddBalance(addr, amount))
      ensures balance == Amount(Lookup(Contents().accounts, addr).balance)
      ensures fresh(Storages(accounts) - old(Storages(accounts)))
    {
      hide Valid, Storages, Reach, Unshared, ViewAccounts;
      var acc := Fetch(addr);
      balance := Amount(Plus(acc.balance, amount));
      Put(addr, acc.(balance := Wei(balance)));
    }

    method SubBalance(addr: string, amount: nat) returns (balance: nat)
      requires Valid()
      modifies this`accounts
      ensures Valid() && Contents() == Exec(old(Contents()), Op.SubBalance(addr, amount))
      ensures balance == Amount(Lookup(Contents().accounts, addr).balance)
      ensures fresh(Storages(accounts) - old(Storages(accounts)))
    {
      hide Valid, Storages, Reach, Unshared, ViewAccounts;
      var acc := Fetch(addr);
      balance := Amount(Minus(acc.balance, amount));
      Put(addr, acc.(balance := Wei(balance)));
    }

    method SetNonce(addr: string, nonce: nat)
      requires Valid()
      modifies this`accounts
      ensures Valid() && Contents() == Exec(old(Contents()), Op.SetNonce(addr, nonce))
      ensures fresh(Storages(accounts) - old(Storages(accounts)))
    {
      hide Valid, Storages, Reach, Unshared, ViewAccounts;
      var acc := Fetch(addr);
      Put(addr, acc.(nonce := nonce));
    }

    method SetCode(addr: string, code: string) returns (previous: string)
      requires Valid()
      modifies this`accounts
      ensures Valid() && Contents() == Exec(old(Contents()), Op.SetCode(addr, code))
      ensures previous == Lookup(old(ViewAccounts(accounts)), addr).code
      ensures fresh(Storages(accounts) - old(Storages(accounts)))
    {
      hide Valid, Storages, Reach, Unshared, ViewAccounts;
      var acc := Fetch(addr);
      previous := acc.code;
      Put(addr, acc.(code := code));
    }

    method GetState(addr: string, key: string) returns (value: string)
      requires Valid()
      ensures var slots := Lookup(ViewAccounts(accounts), addr).storage;
              value == if key in slots then slots[key] else ZERO_HASH
    {
      var acc := Fetch(addr);
      value := if key in acc.storage.slots then acc.storage.slots[key] else ZERO_HASH;
    }

    /** Writes the slot in place, in the map the live account already holds. */
    method SetState(addr: string, key: string, value: string) returns (was: string)
      requires Valid()
      modifies this`accounts, Storages(accounts)
      ensures Valid() && Contents() == Exec(old(Contents()), Op.SetState(addr, key, value))
      ensures fresh(Storages(accounts) - old(Storages(accounts)))
      ensures var slots := Lookup(old(ViewAccounts(accounts)), addr).storage;
              was == if key in slots then slots[key] else ZERO_HASH
    {
      hide Valid, Storages, Reach, Unshared, ViewAccounts;
      var acc := Fetch(addr);
      was := if key in acc.storage.slots then acc.storage.slots[key] else ZERO_HASH;
      WriteSlot(addr, acc, key, value);
      Put(addr, acc);
    }

    /** The in-place write reaches the live account at addr at most, and no snapshot. */
    method WriteSlot(addr: string, acc: Account, key: string, value: string)
      requires Valid() && acc.storage != null
      requires acc.storage !in Reach() || (addr in accounts && acc.storage == accounts[addr].storage)
      modifies acc.storage
      ensures Contents().snapshots == old(Contents().snapshots)
      ensures ViewAccounts(accounts)[addr := ViewAccount(acc)] == old(ViewAccounts(accounts))[addr := ViewAccount(acc)]
      ensures acc.storage.slots == old(acc.storage.slots)[key := value]
    {
      acc.storage.slots := acc.storage.slots[key := value];
      forall i | 0 <= i < |snapshots| ensures ViewAccounts(snapshots[i]) == old(ViewAccounts(snapshots[i])) {
        assert acc.storage !in Storages(snapshots[i]);
      }
    }

    method SelfDestruct(addr: string)
      requires Valid()
      modifies this`accounts
      ensures Valid() && Contents() == Exec(old(Contents()), Op.SelfDestruct(addr))
      ensures fresh(Storages(accounts) - old(Storages(accounts)))
    {
      hide Valid, Unshared, ViewAccounts;
      var acc := Fetch(addr);
      var s := new Storage();
      Put(addr, acc.(code := "", storage := s));
    }

    method Snapshot() returns (id: nat)
      requires Valid()
      modifies this`snapshots
      ensures Valid() && Contents() == Exec(old(Contents()), Op.Snapshot)
      ensures id == |old(Contents()).snapshots|
    {
      var copy := CopyAccounts(accounts);
      Push(copy);
      id := |snapshots| - 1;
    }

    method Push(copy: map<string, Account>)
      requires Valid() && Storages(copy) !! Storages(accounts)
      modifies this`snapshots
      ensures Valid() && snapshots == old(snapshots) + [copy]
      ensures Contents().accounts == old(Contents().accounts)
      ensures Contents().snapshots == old(Contents().snapshots) + [old(ViewAccounts(copy))]
    {
      snapshots := snapshots + [copy];
      forall i | 0 <= i < |old(snapshots)| ensures Contents().snapshots[i] == old(Contents().snapshots[i]) {
        assert snapshots[i] == old(snapshots[i]);
      }
    }

    method RevertToSnapshot(id: int)
      requires Valid()
      modifies this
      ensures Valid() && Contents() == Exec(old(Contents()), Op.RevertToSnapshot(id))
      ensures fresh(Storages(accounts) - old(Storages(accounts)))
    {
      if id < 0 || id >= |snapshots| {
        return;
      }
      accounts := CopyAccounts(snapshots[id]);
      snapshots := snapshots[..id];
    }

    method Perform(op: Op)
      requires Valid()
      modifies this, Storages(accounts)
      ensures Valid() && Contents() == Exec(old(Contents()), op)
      ensures fresh(Storages(accounts) - old(Storages(accounts)))
    {
      match op {
        case CreateAccount(a) => CreateAccount(a);
        case AddBalance(a, n) => var _ := AddBalance(a, n);
        case SubBalance(a, n) => var _ := SubBalance(a, n);
        case SetNonce(a, n) => SetNonce(a, n);
        case SetCode(a, c) => var _ := SetCode(a, c);
        case SetState(a, k, x) => var _ := SetState(a, k, x);
        case SelfDestruct(a) => SelfDestruct(a);
        case Snapshot => var _ := Snapshot();
        case RevertToSnapshot(id) => RevertToSnapshot(id);
      }
    }

    /** A read-only contract call: a snapshot, the operations of the EVM, and a revert.  The EVM
        reverts only to snapshots it took itself, which come after the first. */
    method CallEVM(ops: seq<Op>)
      requires Valid() && snapshots == [] && RevertsAbove(ops, 0)
      modifies this, Storages(accounts)
      ensures Valid() && Contents() == old(Contents())
    {
      var id := Snapshot();
      ghost var taken := Contents();
      for i := 0 to |ops|
        invariant Valid()
        invariant fresh(Storages(accounts) - old(Storages(accounts)))
        invariant ExecAll(Contents(), ops[i..]) == ExecAll(taken, ops)
      {
        assert ops[i..][0] == ops[i] && ops[i..][1..] == ops[i + 1..];
        Perform(ops[i]);
      }
      RevertRestores(old(Contents()), ops);
      RevertToSnapshot(id);
    }
  }
}
