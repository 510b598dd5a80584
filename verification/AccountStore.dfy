/** The in-memory account store: accounts by id, fresh ids from a counter, and one binding per account. */
module AccountStore {
  import opened Wrappers
  import Digits

  datatype AccountRecord = AccountRecord(
    id: string, userId: string, provider: string, platform: string, accountLabel: string, accountNumber: string,
    currency: string, leverage: string, timezone: Option<string>, timezoneSource: string, status: string,
    syncStatus: string, balance: string, equity: string, createdAt: int, updatedAt: int)

  datatype AccountInput = AccountInput(
    provider: string, platform: string, accountLabel: string, accountNumber: string, currency: string,
    leverage: string, timezone: Option<string>, timezoneSource: string, status: string)

  datatype BindingConflict = BindingConflict

  type Accounts = map<string, AccountRecord>

  function OwnedBy(accounts: Accounts, userId: string): set<string> {
    set id | id in accounts && accounts[id].userId == userId
  }

  function Count(accounts: Accounts, userId: string): nat {
    |OwnedBy(accounts, userId)|
  }

  lemma CountAdded(accounts: Accounts, id: string, record: AccountRecord, userId: string)
    requires id !in accounts
    ensures Count(accounts[id := record], userId) == Count(accounts, userId) + if record.userId == userId then 1 else 0
  {
    var before := OwnedBy(accounts, userId);
    if record.userId == userId {
      assert OwnedBy(accounts[id := record], userId) == before + {id};
    } else {
      assert OwnedBy(accounts[id := record], userId) == before;
    }
  }

  lemma CountRemoved(accounts: Accounts, id: string, userId: string)
    ensures Count(accounts - {id}, userId)
        == Count(accounts, userId) - if id in accounts && accounts[id].userId == userId then 1 else 0
  {
    var after := OwnedBy(accounts - {id}, userId);
    if id in accounts && accounts[id].userId == userId {
      assert OwnedBy(accounts, userId) == after + {id};
    } else {
      assert OwnedBy(accounts, userId) == after;
    }
  }

  /** The counter's next id was never given out. */
  lemma FreshId(counter: nat)
    ensures forall k: nat :: k < counter ==> Digits.PrintNat(k) != Digits.PrintNat(counter)
  {
    forall k: nat | k < counter
      ensures Digits.PrintNat(k) != Digits.PrintNat(counter)
    {
      Digits.ParsePrint(k);
      Digits.ParsePrint(counter);
    }
  }

  /** Every account is filed under its own id, and every id came from the counter. */
  ghost predicate FromCounter(accounts: Accounts, counter: nat) {
    forall id :: id in accounts ==> accounts[id].id == id && exists k: nat :: k <= counter && id == Digits.PrintNat(k)
  }

  /** Bindings belong to accounts, and no two accounts share one. */
  predicate OneToOne(accounts: Accounts, bindings: map<string, string>) {
    && (forall id :: id in bindings ==> id in accounts)
    && (forall a, b :: a in bindings && b in bindings && bindings[a] == bindings[b] ==> a == b)
  }

  lemma OwnId(accounts: Accounts, counter: nat, id: string)
    requires FromCounter(accounts, counter) && id in accounts
    ensures accounts[id].id == id
  {
  }

  lemma BindKeeps(accounts: Accounts, counter: nat, bindings: map<string, string>, id: string, binding: string,
                  record: AccountRecord)
    requires FromCounter(accounts, counter) && OneToOne(accounts, bindings)
    requires id in accounts && record.id == id && !Conflict(bindings, binding, id)
    ensures FromCounter(accounts[id := record], counter) && OneToOne(accounts[id := record], bindings[id := binding])
  {
    hide Digits.PrintNat;
  }

  predicate Conflict(bindings: map<string, string>, binding: string, id: string) {
    exists other :: other in bindings && bindings[other] == binding && other != id
  }

  method TakenByOther(bindings: map<string, string>, binding: string, id: string) returns (taken: bool)
    ensures taken <==> Conflict(bindings, binding, id)
  {
    var rest := bindings.Keys;
    while rest != {}
      invariant rest <= bindings.Keys
      invariant forall other :: other in bindings && other !in rest ==> bindings[other] != binding || other == id
      decreases |rest|
    {
      var other :| other in rest;
      if bindings[other] == binding && other != id {
        return true;
      }
      rest := rest - {other};
    }
    taken := false;
  }

  /** A record of what was asked for: disconnected, empty, made and last changed now. */
  predicate MadeFrom(record: AccountRecord, userId: string, input: AccountInput, now: int) {
    && record.userId == userId
    && record.provider == input.provider && record.platform == input.platform
    && record.accountLabel == input.accountLabel && record.accountNumber == input.accountNumber
    && record.currency == input.currency && record.leverage == input.leverage
    && record.timezone == input.timezone && record.timezoneSource == input.timezoneSource
    && record.status == input.status && record.syncStatus == "DISCONNECTED"
    && record.balance == "0.00" && record.equity == "0.00"
    && record.createdAt == now && record.updatedAt == now
  }

  class MemoryAccountStore {
    var accounts: Accounts
    var idCounter: nat
    var bindings: map<string, string>

    ghost predicate Valid()
      reads this
    {
      FromCounter(accounts, idCounter) && OneToOne(accounts, bindings)
    }

    constructor ()
      ensures Valid() && accounts == map[] && bindings == map[]
    {
      accounts, idCounter, bindings := map[], 0, map[];
    }

    method CountByUser(userId: string) returns (n: nat)
      ensures n == Count(accounts, userId)
    {
      n := 0;
      var rest := accounts;
      while rest.Keys != {}
        invariant rest.Keys <= accounts.Keys && forall id :: id in rest ==> rest[id] == accounts[id]
        invariant n + Count(rest, userId) == Count(accounts, userId)
        decreases |rest.Keys|
      {
        var id :| id in rest.Keys;
        CountRemoved(rest, id, userId);
        assert (rest - {id}).Keys == rest.Keys - {id};
        if rest[id].userId == userId {
          n := n + 1;
        }
        rest := rest - {id};
      }
      assert OwnedBy(rest, userId) == {};
    }

    /** A fresh id: the other accounts, and every binding, stay as they are. */
    method Create(userId: string, input: AccountInput, now: int) returns (record: AccountRecord)
      requires Valid()
      modifies `accounts, `idCounter
      ensures Valid()
      ensures MadeFrom(record, userId, input, now)
      ensures record.id !in old(accounts) && accounts == old(accounts)[record.id := record]
      ensures Count(accounts, userId) == Count(old(accounts), userId) + 1
    {
      idCounter := idCounter + 1;
      var id := Digits.PrintNat(idCounter);
      FreshId(idCounter);
      record := AccountRecord(id, userId, input.provider, input.platform, input.accountLabel, input.accountNumber,
                              input.currency, input.leverage, input.timezone, input.timezoneSource, input.status,
                              "DISCONNECTED", "0.00", "0.00", now, now);
      CountAdded(accounts, id, record, userId);
      accounts := accounts[id := record];
    }

    method DeleteForUser(id: string, userId: string) returns (deleted: bool)
      requires Valid()
      modifies `accounts, `bindings
      ensures Valid()
      ensures deleted <==> id in old(accounts) && old(accounts)[id].userId == userId
      ensures deleted ==> accounts == old(accounts) - {id} && bindings == old(bindings) - {id}
      ensures !deleted ==> accounts == old(accounts) && bindings == old(bindings)
    {
      if id !in accounts || accounts[id].userId != userId {
        return false;
      }
      bindings := bindings - {id};
      accounts := accounts - {id};
      deleted := true;
    }

    /**
     Compare and set under global uniqueness: a binding another account holds is a conflict, whatever
     the account's own state; a different or unexpected binding of its own is a refusal.
     */
    method BindMetaApiAccount(id: string, userId: string, binding: string, now: int, expectUnbound: bool)
      returns (r: Result<Option<AccountRecord>, BindingConflict>)
      requires Valid()
      modifies `accounts, `bindings
      ensures Valid()
      ensures var mine := id in old(accounts) && old(accounts)[id].userId == userId;
              var conflict := Conflict(old(bindings), binding, id);
              var free := id !in old(bindings) || (!expectUnbound && old(bindings)[id] == binding);
              && (r.Failure? <==> mine && conflict)
              && (r.Success? ==> (r.value.Some? <==> mine && free))
              && (mine && !conflict && free ==>
                    && bindings == old(bindings)[id := binding]
                    && accounts == old(accounts)[id := old(accounts)[id].(updatedAt := now)]
                    && r == Success(Some(accounts[id])))
              && (!(mine && !conflict && free) ==> bindings == old(bindings) && accounts == old(accounts))
    {
      hide FromCounter, OneToOne, Conflict;
      if id !in accounts || accounts[id].userId != userId {
        return Success(None);
      }
      OwnId(accounts, idCounter, id);
      var taken := TakenByOther(bindings, binding, id);
      if taken {
        return Failure(BindingConflict);
      }
      if id in bindings && (expectUnbound || bindings[id] != binding) {
        return Success(None);
      }
      var updated := accounts[id].(updatedAt := now);
      BindKeeps(accounts, idCounter, bindings, id, binding, updated);
      bindings := bindings[id := binding];
      accounts := accounts[id := updated];
      r := Success(Some(updated));
    }

    method UnbindMetaApiAccount(id: string, userId: string, now: int) returns (previous: Option<string>)
      requires Valid()
      modifies `accounts, `bindings
      ensures Valid()
      ensures var mine := id in old(accounts) && old(accounts)[id].userId == userId && id in old(bindings);
              && (previous.Some? <==> mine)
              && (mine ==>
                    && previous.value == old(bindings)[id] && bindings == old(bindings) - {id}
                    && accounts == old(accounts)[id := old(accounts)[id].(updatedAt := now)])
              && (!mine ==> bindings == old(bindings) && accounts == old(accounts))
    {
      if id !in accounts || accounts[id].userId != userId || id !in bindings {
        return None;
      }
      previous := Some(bindings[id]);
      bindings := bindings - {id};
      accounts := accounts[id := accounts[id].(updatedAt := now)];
    }
  }

  datatype QuotaExceeded = QuotaExceeded(currentCount: nat, maxAllowed: nat)

  /** What a creation queues, run without interruption: `quota` is none for an unlimited plan. */
  method CheckAndCreate(store: MemoryAccountStore, userId: string, quota: Option<nat>, input: AccountInput, now: int)
    returns (r: Result<AccountRecord, QuotaExceeded>)
    requires store.Valid()
    modifies store
    ensures store.Valid()
    ensures r.Failure? <==> quota.Some? && Count(old(store.accounts), userId) >= quota.value
    ensures store.bindings == old(store.bindings)
    ensures r.Failure? ==>
              && store.accounts == old(store.accounts)
              && r.error.currentCount == Count(old(store.accounts), userId) && quota == Some(r.error.maxAllowed)
    ensures r.Success? ==>
              && r.value.id !in old(store.accounts) && MadeFrom(r.value, userId, input, now)
              && store.accounts == old(store.accounts)[r.value.id := r.value]
              && (quota.Some? ==> Count(store.accounts, userId) <= quota.value)
  {
    if quota.Some? {
      var count := store.CountByUser(userId);
      if count >= quota.value {
        return Failure(QuotaExceeded(count, quota.value));
      }
    }
    var record := store.Create(userId, input, now);
    r := Success(record);
  }
}
