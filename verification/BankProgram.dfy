/** Lab_3/solution/part2.c as a program: the globals are fields, each call of `Deposit` or `Withdraw` executes
    the next statement of one thread, and a schedule decides which thread that is. */
module BankProgram {
  import opened Bank

  const LIMIT := 400
  const DEPOSITORS := 7
  const WITHDRAWERS := 3

  class Account {
    const t: int
    const threads: array<Thread>
    var amount: int
    var deposits: nat
    var withdrawals: nat
    var mutex: Owner

    ghost function Model(): State
      reads this, threads
    {
      State(threads[..], amount, deposits, withdrawals, mutex)
    }

    /** The first part of main: semaphores initialised, threads created. */
    constructor (transactionAmount: int, limit: nat, kinds: seq<Kind>)
      requires 0 < transactionAmount
      ensures t == transactionAmount && fresh(threads)
      ensures Model() == Start(kinds, limit, transactionAmount)
    {
      t := transactionAmount;
      threads := new Thread[|kinds|](i requires 0 <= i < |kinds| => Thread(kinds[i], SemWait));
      amount := 0;
      deposits := limit / transactionAmount;
      withdrawals := 0;
      mutex := Free;
      new;
      assert threads[..] == Start(kinds, limit, transactionAmount).threads;
    }

    method Deposit(i: nat)
      requires i < threads.Length && threads[i].kind == Kind.Deposit
      modifies this, threads
      ensures Model() == Step(old(Model()), t, i)
    {
      match threads[i].pc
      case SemWait =>
        if deposits > 0 {
          deposits := deposits - 1;
          threads[i] := threads[i].(pc := Lock);
        }
      case Lock =>
        if mutex == Free {
          mutex := Held(i);
          threads[i] := threads[i].(pc := Load);
        }
      case Load => threads[i] := threads[i].(pc := Store(amount));
      case Store(local) =>
        amount := local + t;
        threads[i] := threads[i].(pc := Unlock);
      case Unlock =>
        mutex := Free;
        threads[i] := threads[i].(pc := Post);
      case Post =>
        withdrawals := withdrawals + 1;
        threads[i] := threads[i].(pc := Done);
      case Done =>
    }

    method Withdraw(i: nat)
      requires i < threads.Length && threads[i].kind == Kind.Withdraw
      modifies this, threads
      ensures Model() == Step(old(Model()), t, i)
    {
      match threads[i].pc
      case SemWait =>
        if withdrawals > 0 {
          withdrawals := withdrawals - 1;
          threads[i] := threads[i].(pc := Lock);
        }
      case Lock =>
        if mutex == Free {
          mutex := Held(i);
          threads[i] := threads[i].(pc := Load);
        }
      case Load => threads[i] := threads[i].(pc := Store(amount));
      case Store(local) =>
        amount := local - t;
        threads[i] := threads[i].(pc := Unlock);
      case Unlock =>
        mutex := Free;
        threads[i] := threads[i].(pc := Post);
      case Post =>
        deposits := deposits + 1;
        threads[i] := threads[i].(pc := Done);
      case Done =>
    }

    method Execute(schedule: seq<nat>)
      modifies this, threads
      ensures Model() == Run(old(Model()), t, schedule)
    {
      for k := 0 to |schedule|
        invariant Run(Model(), t, schedule[k..]) == Run(old(Model()), t, schedule)
      {
        var i := schedule[k];
        assert schedule[k..][0] == i && schedule[k..][1..] == schedule[k + 1..];
        if i < threads.Length {
          if threads[i].kind == Kind.Deposit {
            Deposit(i);
          } else {
            Withdraw(i);
          }
        }
      }
    }
  }

  /** The ten threads of main. */
  function TenThreads(): (r: seq<Kind>)
    ensures Threads(r, Kind.Deposit) == 7 && Threads(r, Kind.Withdraw) == 3
  {
    var deposits := seq(DEPOSITORS, i => Kind.Deposit);
    var withdrawals := seq(WITHDRAWERS, i => Kind.Withdraw);
    CountAppend(deposits, withdrawals, Kind.Deposit);
    CountAppend(deposits, withdrawals, Kind.Withdraw);
    CountSame(deposits, Kind.Deposit);
    CountSame(withdrawals, Kind.Withdraw);
    deposits + withdrawals
  }

  lemma {:induction false} CountAppend(a: seq<Kind>, b: seq<Kind>, kind: Kind)
    ensures Threads(a + b, kind) == Threads(a, kind) + Threads(b, kind)
  {
    if b == [] {
      assert a + b == a;
    } else {
      assert (a + b)[..|a + b| - 1] == a + b[..|b| - 1];
      CountAppend(a, b[..|b| - 1], kind);
    }
  }

  lemma {:induction false} CountSame(a: seq<Kind>, kind: Kind)
    requires forall i :: 0 <= i < |a| ==> a[i] == kind
    ensures forall k :: Threads(a, k) == if k == kind then |a| else 0
  {
    if a != [] {
      CountSame(a[..|a| - 1], kind);
    }
  }

  /** The program under any scheduler. If the threads are run until nothing can move, 4 deposits more than
      withdrawals have been made, or as many as fit below 400; all ten threads return exactly up to 100. */
  method RunThreads(transactionAmount: int, schedule: seq<nat>) returns (amount: int)
    requires 0 < transactionAmount
    ensures 0 <= amount <= 400 && amount % transactionAmount == 0
    ensures var s := Run(Start(TenThreads(), 400, transactionAmount), transactionAmount, schedule);
            && amount == s.amount
            && (Terminal(s) ==> amount == transactionAmount * Min(7 - 3, 400 / transactionAmount))
            && (Terminal(s) ==> (AllDone(s) <==> transactionAmount <= 100))
  {
    var account := new Account(transactionAmount, LIMIT, TenThreads());
    account.Execute(schedule);
    amount := account.amount;
    EveryRunInRange(TenThreads(), LIMIT, transactionAmount, schedule);
    ghost var s := Run(Start(TenThreads(), LIMIT, transactionAmount), transactionAmount, schedule);
    if Terminal(s) {
      EveryMaximalRunEndsAlike(TenThreads(), LIMIT, transactionAmount, schedule);
      EveryMaximalRunFinishesIffFits(TenThreads(), LIMIT, transactionAmount, schedule);
      FourFit(transactionAmount);
    }
  }

  lemma FourFit(t: int)
    requires 0 < t
    ensures 4 <= LIMIT / t <==> t <= 100
  {
  }
}
