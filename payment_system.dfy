/** The wallet page: a balance, the amount and receiver typed into the form,
    and a transaction history, newest first, which can be exported as CSV.
    Money is counted in integer cents. */
module PaymentSystem {
  import Text

  datatype TxKind = Deposit | Withdraw | Transfer

  datatype TxStatus = Completed | Pending

  datatype Transaction = Transaction(
    id: int, kind: TxKind, amount: int, sender: string, receiver: string, status: TxStatus)

  /** The opening balance, 5420.75. */
  const OpeningBalance: int := 542075

  /** The history the page starts with. */
  const SeedHistory: seq<Transaction> :=
    [Transaction(1, Transfer, 50000, "Investor John", "Entrepreneur Jane", Completed)]

  /** The column names of the exported file. */
  const HeaderLine: string := "Type,Amount,Sender,Receiver,Status"

  /** The first line of the exported file, with its line break. */
  const CsvHeader: string := HeaderLine + "\n"

  function KindText(k: TxKind): string
  {
    match k
    case Deposit => "Deposit"
    case Withdraw => "Withdraw"
    case Transfer => "Transfer"
  }

  function StatusText(s: TxStatus): string
  {
    match s
    case Completed => "Completed"
    case Pending => "Pending"
  }

  /** What a transaction does to the wallet: a deposit adds its amount,
      a withdrawal or a transfer takes it away. */
  function Effect(t: Transaction): int
  {
    if t.kind == Deposit then t.amount else -t.amount
  }

  /** The sum of the effects of a history. */
  function Net(h: seq<Transaction>): int
    decreases |h|
  {
    if h == [] then 0 else Effect(h[0]) + Net(h[1..])
  }

  // ---------------------------------------------------------------------------
  // CSV export

  /** One CSV row: type, amount, sender, receiver and status separated by
      commas; `showAmount` is the number-to-text conversion. The row starts
      with the type name and a comma and ends with a comma and the status name. */
  function Row(t: Transaction, showAmount: int -> string): (row: string)
    ensures |row| > |KindText(t.kind)| && row[..|KindText(t.kind)| + 1] == KindText(t.kind) + ","
    ensures |row| > |StatusText(t.status)| && row[|row| - |StatusText(t.status)| - 1..] == "," + StatusText(t.status)
  {
    KindText(t.kind) + "," + showAmount(t.amount) + "," + t.sender + "," + t.receiver + "," + StatusText(t.status)
  }

  /** The rows of a history, in history order. */
  function Rows(h: seq<Transaction>, showAmount: int -> string): (rows: seq<string>)
    ensures |rows| == |h|
    ensures forall k :: 0 <= k < |h| ==> rows[k] == Row(h[k], showAmount)
  {
    seq(|h|, k requires 0 <= k < |h| => Row(h[k], showAmount))
  }

  /** The exported text: the header, then the rows joined by line breaks; an
      empty history exports the header alone. */
  function Csv(h: seq<Transaction>, showAmount: int -> string): (text: string)
    ensures |text| >= |CsvHeader| && text[..|CsvHeader|] == CsvHeader
    ensures h == [] ==> text == CsvHeader
  {
    CsvHeader + Text.Join(Rows(h, showAmount), "\n")
  }

  /** A text fit to stand in one CSV cell: no comma and no line break. */
  ghost predicate PlainCell(s: string)
  {
    ',' !in s && '\n' !in s
  }

  /** No free-text cell of any transaction holds a line break. */
  ghost predicate OneLineHistory(h: seq<Transaction>, showAmount: int -> string)
  {
    forall k :: 0 <= k < |h| ==>
      '\n' !in h[k].sender && '\n' !in h[k].receiver && '\n' !in showAmount(h[k].amount)
  }

  /** A row read back by splitting on commas gives the five fields in order. */
  lemma RowFields(t: Transaction, showAmount: int -> string)
    requires PlainCell(t.sender) && PlainCell(t.receiver) && PlainCell(showAmount(t.amount))
    ensures Text.Split(Row(t, showAmount), ",") ==
              [KindText(t.kind), showAmount(t.amount), t.sender, t.receiver, StatusText(t.status)]
  {
    var fields := [KindText(t.kind), showAmount(t.amount), t.sender, t.receiver, StatusText(t.status)];
    FixedTextsArePlain(t);
    RowIsJoinOfFields(t, showAmount);
    Text.SplitJoin(fields, ",");
  }

  /** The type and status names hold no comma and no line break. */
  lemma FixedTextsArePlain(t: Transaction)
    ensures PlainCell(KindText(t.kind)) && PlainCell(StatusText(t.status))
  {
  }

  /** The row template is the five fields joined by commas. */
  lemma RowIsJoinOfFields(t: Transaction, showAmount: int -> string)
    ensures Row(t, showAmount) ==
              Text.Join([KindText(t.kind), showAmount(t.amount), t.sender, t.receiver, StatusText(t.status)], ",")
  {
    var fields := [KindText(t.kind), showAmount(t.amount), t.sender, t.receiver, StatusText(t.status)];
    var status := fields[4];
    assert Text.Join(fields[4..], ",") == status;
    assert Text.Join(fields[3..], ",") == t.receiver + "," + status by {
      assert fields[3..][1..] == fields[4..];
    }
    assert Text.Join(fields[2..], ",") == t.sender + "," + t.receiver + "," + status by {
      assert fields[2..][1..] == fields[3..];
    }
    assert Text.Join(fields[1..], ",") == showAmount(t.amount) + "," + t.sender + "," + t.receiver + "," + status by {
      assert fields[1..][1..] == fields[2..];
    }
  }

  /** A row of plain cells holds no line break. */
  lemma RowHasNoLineBreak(t: Transaction, showAmount: int -> string)
    requires '\n' !in t.sender && '\n' !in t.receiver && '\n' !in showAmount(t.amount)
    ensures '\n' !in Row(t, showAmount)
  {
  }

  /** The exported text read back line by line is the header line followed by
      one row per transaction in history order; an empty history leaves one
      empty line after the header. */
  lemma CsvLines(h: seq<Transaction>, showAmount: int -> string)
    requires OneLineHistory(h, showAmount)
    ensures Text.Split(Csv(h, showAmount), "\n") == [HeaderLine] + (if h == [] then [""] else Rows(h, showAmount))
  {
    var rows := Rows(h, showAmount);
    Text.SplitAfterPiece(HeaderLine, "\n", Text.Join(rows, "\n"));
    if h != [] {
      forall k | 0 <= k < |rows| ensures '\n' !in rows[k] {
        RowHasNoLineBreak(h[k], showAmount);
      }
      Text.SplitJoin(rows, "\n");
    }
  }

  // ---------------------------------------------------------------------------
  // The page state

  class Wallet {
    var balance: int
    var amount: int
    var receiver: string
    var transactions: seq<Transaction>

    /** The balance never goes negative. */
    ghost predicate Valid()
      reads this
    {
      balance >= 0
    }

    /** The balance the wallet had before its history: what each successful
        operation conserves, since it moves the balance by the effect of the
        record it adds. */
    ghost function BalanceBeforeHistory(): int
      reads this
    {
      balance - Net(transactions)
    }

    constructor ()
      ensures Valid()
      ensures balance == OpeningBalance && amount == 0 && receiver == "" && transactions == SeedHistory
    {
      balance := OpeningBalance;
      amount := 0;
      receiver := "";
      transactions := SeedHistory;
    }

    /** The amount field's change handler. */
    method SetAmount(value: int)
      modifies this
      ensures amount == value
      ensures balance == old(balance) && receiver == old(receiver) && transactions == old(transactions)
    {
      amount := value;
    }

    /** The receiver field's change handler. */
    method SetReceiver(value: string)
      modifies this
      ensures receiver == value
      ensures balance == old(balance) && amount == old(amount) && transactions == old(transactions)
    {
      receiver := value;
    }

    /** `addTransaction`: the record goes in front of the history. */
    method AddTransaction(tx: Transaction)
      modifies this
      ensures transactions == [tx] + old(transactions)
      ensures |transactions| == |old(transactions)| + 1 && transactions[1..] == old(transactions)
      ensures Net(transactions) == Effect(tx) + old(Net(transactions))
      ensures balance == old(balance) && amount == old(amount) && receiver == old(receiver)
    {
      transactions := [tx] + transactions;
      assert transactions[1..] == old(transactions);
    }

    /** `handleDeposit`, with `now` the clock reading used as the record id. */
    method HandleDeposit(now: int) returns (ok: bool)
      requires Valid()
      modifies this
      ensures Valid() && BalanceBeforeHistory() == old(BalanceBeforeHistory())
      ensures ok <==> old(amount) > 0
      ensures !ok ==> balance == old(balance) && transactions == old(transactions) &&
                      amount == old(amount) && receiver == old(receiver)
      ensures ok ==> balance == old(balance) + old(amount) && amount == 0 && receiver == old(receiver) &&
                     transactions == [Transaction(now, Deposit, old(amount), "Bank", "My Wallet", Completed)] +
                                     old(transactions)
    {
      if amount <= 0 {
        return false;
      }
      balance := balance + amount;
      AddTransaction(Transaction(now, Deposit, amount, "Bank", "My Wallet", Completed));
      amount := 0;
      ok := true;
    }

    /** `handleWithdraw`. */
    method HandleWithdraw(now: int) returns (ok: bool)
      requires Valid()
      modifies this
      ensures Valid() && BalanceBeforeHistory() == old(BalanceBeforeHistory())
      ensures ok <==> 0 < old(amount) <= old(balance)
      ensures !ok ==> balance == old(balance) && transactions == old(transactions) &&
                      amount == old(amount) && receiver == old(receiver)
      ensures ok ==> balance == old(balance) - old(amount) && amount == 0 && receiver == old(receiver) &&
                     transactions == [Transaction(now, Withdraw, old(amount), "My Wallet", "Bank", Completed)] +
                                     old(transactions)
    {
      if amount <= 0 || amount > balance {
        return false;
      }
      balance := balance - amount;
      AddTransaction(Transaction(now, Withdraw, amount, "My Wallet", "Bank", Completed));
      amount := 0;
      ok := true;
    }

    /** `handleTransfer`. */
    method HandleTransfer(now: int) returns (ok: bool)
      requires Valid()
      modifies this
      ensures Valid() && BalanceBeforeHistory() == old(BalanceBeforeHistory())
      ensures ok <==> 0 < old(amount) <= old(balance) && old(receiver) != ""
      ensures !ok ==> balance == old(balance) && transactions == old(transactions) &&
                      amount == old(amount) && receiver == old(receiver)
      ensures ok ==> balance == old(balance) - old(amount) && amount == 0 && receiver == "" &&
                     transactions == [Transaction(now, Transfer, old(amount), "Investor John", old(receiver), Completed)] +
                                     old(transactions)
    {
      if amount <= 0 || amount > balance || receiver == "" {
        return false;
      }
      balance := balance - amount;
      AddTransaction(Transaction(now, Transfer, amount, "Investor John", receiver, Completed));
      amount := 0;
      receiver := "";
      ok := true;
    }

    /** `exportCSV`'s text for the current history. */
    function ExportText(showAmount: int -> string): (text: string)
      reads this
      ensures |text| >= |CsvHeader| && text[..|CsvHeader|] == CsvHeader
    {
      Csv(transactions, showAmount)
    }
  }

  /** A successful deposit, withdrawal or transfer (`kind`) clears the amount,
      so a deposit, a withdrawal and a transfer pressed right after it are all
      rejected and change nothing. */
  method RepeatIsRejected(w: Wallet, kind: TxKind, now: int, later: int)
    returns (first: bool, deposit: bool, withdraw: bool, transfer: bool)
    requires w.Valid()
    modifies w
    ensures w.Valid()
    ensures first ==> !deposit && !withdraw && !transfer
    ensures first ==> w.amount == 0 && |w.transactions| == |old(w.transactions)| + 1 &&
                      w.transactions[1..] == old(w.transactions)
  {
    match kind {
      case Deposit => first := w.HandleDeposit(now);
      case Withdraw => first := w.HandleWithdraw(now);
      case Transfer => first := w.HandleTransfer(now);
    }
    deposit := w.HandleDeposit(later);
    withdraw := w.HandleWithdraw(later);
    transfer := w.HandleTransfer(later);
  }
}
