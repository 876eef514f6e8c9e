/** The plan executor of the customer-service agent: it isolates the code
    block of a generated plan, runs that block against a fixed set of
    bindings while capturing what it prints, and returns the code, the
    captured log, the fault and the answer the plan left behind. */
module PlanExecutor {
  import opened PyBase
  import opened PyStr

  const OpenTag := "<execute_python>"
  const CloseTag := "</execute_python>"
  const EmptyContent := "Empty content passed to code executor."

  /** One match of `<execute_python>(.*?)</execute_python>` under
      `re.IGNORECASE`: an open tag at `p` and a close tag at `q`, the block
      being everything in between. */
  predicate IsTagMatch(text: string, p: int, q: int) {
    MatchesAtCI(text, OpenTag, p) && p + |OpenTag| <= q && MatchesAtCI(text, CloseTag, q)
  }

  /** The offsets of the open and close tag of the match `re.search`
      finds. */
  function TagMatch(text: string): Option<(nat, nat)> {
    match FindCI(text, OpenTag, 0)
    case None => None
    case Some(p) =>
      match FindCI(text, CloseTag, p + |OpenTag|)
      case None => None
      case Some(q) => Some((p, q))
  }

  /** `TagMatch` is the regular-expression search: the leftmost open tag
      that some close tag follows and, the `.*?` being lazy, the nearest
      such close tag; there is no match exactly when no open tag is
      followed by a close tag. */
  lemma TagMatchIsLeftmostLazy(text: string)
    ensures var r := TagMatch(text);
      && (r.Some? ==> IsTagMatch(text, r.value.0, r.value.1))
      && (r.Some? ==> forall p, q :: IsTagMatch(text, p, q) ==> r.value.0 <= p && (p == r.value.0 ==> r.value.1 <= q))
      && (r.None? <==> forall p, q :: !IsTagMatch(text, p, q))
  {
    match FindCI(text, OpenTag, 0)
    case None =>
    case Some(p) =>
      match FindCI(text, CloseTag, p + |OpenTag|)
      case None =>
      case Some(q) => assert IsTagMatch(text, p, q);
  }

  /** `_extract_execute_block`: the trimmed block between the first tag
      pair, or the whole text trimmed when there is no tag pair. Only the
      empty string is refused. */
  function ExtractExecuteBlock(text: string): (r: Result<string, PyError>)
    ensures r.Failure? <==> text == ""
    ensures r.Failure? ==> r.error == RuntimeError(EmptyContent)
    ensures r.Success? ==> Trimmed(r.value)
    ensures text != "" && TagMatch(text).None? ==> r == Success(Strip(text))
    ensures TagMatch(text).Some? ==>
      var (p, q) := TagMatch(text).value;
      r == Success(Strip(text[p + |OpenTag|..q]))
  {
    if text == "" then Failure(RuntimeError(EmptyContent))
    else
      match TagMatch(text)
      case Some((p, q)) => Success(Strip(text[p + |OpenTag|..q]))
      case None => Success(Strip(text))
  }

  /** Text made of whitespace only is accepted and yields the empty block. */
  lemma WhitespaceOnlyGivesEmptyBlock(text: string)
    requires text != ""
    requires forall i :: 0 <= i < |text| ==> IsSpace(text[i])
    ensures ExtractExecuteBlock(text) == Success("")
  {
    match TagMatch(text)
    case None =>
    case Some((p, q)) =>
      var block := text[p + |OpenTag|..q];
      assert forall i :: 0 <= i < |block| ==> IsSpace(block[i]) by {
        forall i | 0 <= i < |block| ensures IsSpace(block[i]) {
          assert block[i] == text[p + |OpenTag| + i];
        }
      }
  }

  /** No case folding turns another character into `<`, so a literal that
      starts with `<` is first found where it occurs if no `<` comes before. */
  lemma FirstAngleMatch(text: string, pat: string, from: nat, p: nat)
    requires pat != [] && pat[0] == '<'
    requires from <= p && MatchesAtCI(text, pat, p)
    requires forall j :: from <= j < p ==> text[j] != '<'
    ensures FindCI(text, pat, from) == Some(p)
  {
    forall j | from <= j < p ensures !MatchesAtCI(text, pat, j) {
      assert !FoldsTo(text[j + 0], pat[0]);
    }
  }

  /** A tag pair, spelt in any case, with no `<` before the open tag and no
      `<` between the tags, is the pair the search finds, and its block,
      trimmed, is what is extracted, whatever follows. */
  lemma TaggedBlockIsExtracted(text: string, p: nat, q: nat)
    requires IsTagMatch(text, p, q)
    requires forall j :: 0 <= j < p ==> text[j] != '<'
    requires forall j :: p + |OpenTag| <= j < q ==> text[j] != '<'
    ensures TagMatch(text) == Some((p, q))
    ensures ExtractExecuteBlock(text) == Success(Strip(text[p + |OpenTag|..q]))
  {
    FirstAngleMatch(text, OpenTag, 0, p);
    FirstAngleMatch(text, CloseTag, p + |OpenTag|, q);
  }

  /** Whatever follows the first tag pair is ignored. */
  lemma LaterBlocksIgnored(text: string, more: string)
    requires TagMatch(text).Some?
    ensures ExtractExecuteBlock(text + more) == ExtractExecuteBlock(text)
  {
    var p := FindCI(text, OpenTag, 0).value;
    FindCIExtend(text, more, OpenTag, 0);
    FindCIExtend(text, more, CloseTag, p + |OpenTag|);
    var q := FindCI(text, CloseTag, p + |OpenTag|).value;
    assert (text + more)[p + |OpenTag|..q] == text[p + |OpenTag|..q];
  }

  /** The Python values the plan's namespace can hold, as far as the
      executor looks at them. `ObjectV` is any other object, with the truth
      value `bool()` gives it. */
  datatype Value =
    | NoneV
    | BoolV(b: bool)
    | IntV(i: int)
    | FloatV(x: real)
    | StrV(s: string)
    | ListV(items: seq<Value>)
    | DictV(entries: seq<(Value, Value)>)
    | ObjectV(name: string, truthy: bool)

  /** Python truthiness. */
  predicate Truthy(v: Value) {
    match v
    case NoneV => false
    case BoolV(b) => b
    case IntV(i) => i != 0
    case FloatV(x) => x != 0.0
    case StrV(s) => s != ""
    case ListV(items) => items != []
    case DictV(entries) => entries != []
    case ObjectV(_, t) => t
  }

  /** Python's `a or b`: the first operand if it is truthy, else the second. */
  function Or(a: Value, b: Value): Value {
    if Truthy(a) then a else b
  }

  type Namespace = map<string, Value>

  /** `ns.get(name)` */
  function Lookup(ns: Namespace, name: string): Value {
    if name in ns then ns[name] else NoneV
  }

  /** `answer_text or answer_rows or answer_json`, read from the namespace
      the plan left. The answer is truthy exactly when one of the three is,
      and then it is the first truthy one; otherwise it is whatever
      `answer_json` holds (None when unset). */
  function SelectAnswer(ns: Namespace): (a: Value)
    ensures Truthy(a) <==> Truthy(Lookup(ns, "answer_text")) || Truthy(Lookup(ns, "answer_rows")) || Truthy(Lookup(ns, "answer_json"))
    ensures Truthy(Lookup(ns, "answer_text")) ==> a == ns["answer_text"]
    ensures !Truthy(Lookup(ns, "answer_text")) && Truthy(Lookup(ns, "answer_rows")) ==> a == ns["answer_rows"]
    ensures !Truthy(Lookup(ns, "answer_text")) && !Truthy(Lookup(ns, "answer_rows")) ==> a == Lookup(ns, "answer_json")
    ensures "answer_text" !in ns && "answer_rows" !in ns && "answer_json" !in ns ==> a == NoneV
  {
    Or(Or(Lookup(ns, "answer_text"), Lookup(ns, "answer_rows")), Lookup(ns, "answer_json"))
  }

  /** `SAFE_GLOBALS`: the query builder, the two ledger helpers and the
      request text, which is `""` when no request is given. */
  function PlanGlobals(userRequest: Option<string>): Namespace
  {
    map[
      "Query" := ObjectV("Query", true),
      "get_current_balance" := ObjectV("get_current_balance", true),
      "next_transaction_id" := ObjectV("next_transaction_id", true),
      "user_request" := StrV(if userRequest.Some? && userRequest.value != "" then userRequest.value else "")
    ]
  }

  /** `SAFE_LOCALS` before the plan runs: the database and its two tables. */
  function PlanLocals(db: Value, inventoryTbl: Value, transactionsTbl: Value): Namespace
  {
    map["db" := db, "inventory_tbl" := inventoryTbl, "transactions_tbl" := transactionsTbl]
  }

  /** The two namespaces hold seven names: the query builder, the two
      ledger helpers and the request text as globals, the database and its
      two tables as locals; the request is bound to `""` when none is
      given. */
  lemma BindingSetIsClosed(userRequest: Option<string>, db: Value, inventoryTbl: Value, transactionsTbl: Value)
    ensures var g := PlanGlobals(userRequest); var l := PlanLocals(db, inventoryTbl, transactionsTbl);
      && g.Keys == {"Query", "get_current_balance", "next_transaction_id", "user_request"}
      && l.Keys == {"db", "inventory_tbl", "transactions_tbl"}
      && g.Keys !! l.Keys
      && g["user_request"] == StrV(if userRequest.Some? then userRequest.value else "")
      && l["db"] == db && l["inventory_tbl"] == inventoryTbl && l["transactions_tbl"] == transactionsTbl
  {
  }

  /** What `exec` of the plan leaves behind: the local namespace, the text
      the plan printed, the traceback text of the exception it raised (None
      if it raised nothing), and the documents of the inventory and
      transactions tables. A plan that raises leaves whatever it had already
      done. */
  datatype ExecOutcome = ExecOutcome(
    locals: Namespace,
    printed: string,
    fault: Option<string>,
    inventory: seq<Value>,
    transactions: seq<Value>)

  /** `exec(code, globals, locals)` against the tables' current documents. */
  type PlanRun = (string, Namespace, Namespace, seq<Value>, seq<Value>) -> ExecOutcome

  /** A text stream: `io.StringIO`, or the console `sys.stdout` starts as. */
  class Stream {
    var text: string

    constructor ()
      ensures text == ""
    {
      text := "";
    }

    method Write(s: string)
      modifies this
      ensures text == old(text) + s
    {
      text := text + s;
    }
  }

  /** The interpreter's rebindable `sys.stdout`. */
  class Sys {
    var stdout: Stream

    constructor (console: Stream)
      ensures stdout == console
    {
      stdout := console;
    }
  }

  /** The TinyDB database: the documents of the inventory and transactions tables. */
  class Store {
    var inventory: seq<Value>
    var transactions: seq<Value>

    constructor (inventory: seq<Value>, transactions: seq<Value>)
      ensures this.inventory == inventory && this.transactions == transactions
    {
      this.inventory := inventory;
      this.transactions := transactions;
    }
  }

  /** The record `execute_generated_code` returns. */
  datatype ExecutionRecord = ExecutionRecord(
    code: string,
    stdout: string,
    error: Option<string>,
    answer: Value,
    transactionsAfter: seq<Value>,
    inventoryAfter: seq<Value>)

  /** The `try`/`except`/`finally` around `exec`: stdout is redirected into
      a fresh buffer, the plan runs against the locals dict, a fault is
      caught as its traceback text, and stdout is restored on both paths.
      Returns the stripped buffer and the fault; nothing reaches the
      original stdout. */
  method RunCaptured(sys: Sys, store: Store, code: string, safeGlobals: Namespace,
                     safeLocals: PyDict<Value>, run: PlanRun)
    returns (printed: string, errText: Option<string>)
    modifies sys, store, safeLocals
    ensures sys.stdout == old(sys.stdout) && sys.stdout.text == old(sys.stdout.text)
    ensures var o := run(code, safeGlobals, old(safeLocals.items), old(store.inventory), old(store.transactions));
      && safeLocals.items == o.locals
      && store.inventory == o.inventory && store.transactions == o.transactions
      && printed == Strip(o.printed)
      && errText == o.fault
  {
    var buffer := new Stream();
    var savedStdout := sys.stdout;
    sys.stdout := buffer;
    errText := None;
    // exec(code, SAFE_GLOBALS, SAFE_LOCALS): the plan prints into whatever
    // sys.stdout is, rebinds its locals and updates the tables
    var o := run(code, safeGlobals, safeLocals.items, store.inventory, store.transactions);
    sys.stdout.Write(o.printed);
    assert buffer.text == "" + o.printed == o.printed;
    safeLocals.Rebind(o.locals);
    store.inventory, store.transactions := o.inventory, o.transactions;
    if o.fault.Some? {
      errText := Some(o.fault.value);
    }
    sys.stdout := savedStdout;
    assert buffer.text == o.printed;
    printed := Strip(buffer.text);
  }

  /** `execute_generated_code`: extract the block, run it with its output
      captured, and report the code, the stripped log, the fault and the
      answer, with the tables as the plan left them. The empty string is
      refused before anything runs. */
  method ExecuteGeneratedCode(
    sys: Sys, store: Store, codeOrContent: string,
    db: Value, inventoryTbl: Value, transactionsTbl: Value,
    userRequest: Option<string>, run: PlanRun)
    returns (r: Result<ExecutionRecord, PyError>)
    modifies sys, store
    ensures sys.stdout == old(sys.stdout) && sys.stdout.text == old(sys.stdout.text)
    ensures codeOrContent == "" ==> r == Failure(RuntimeError(EmptyContent)) && unchanged(store)
    ensures codeOrContent != "" ==>
      var code := ExtractExecuteBlock(codeOrContent).value;
      var o := run(code, PlanGlobals(userRequest), PlanLocals(db, inventoryTbl, transactionsTbl),
                   old(store.inventory), old(store.transactions));
      && store.inventory == o.inventory
      && store.transactions == o.transactions
      && r == Success(ExecutionRecord(code, Strip(o.printed), o.fault, SelectAnswer(o.locals),
                                      o.transactions, o.inventory))
  {
    var extracted := ExtractExecuteBlock(codeOrContent);
    if extracted.Failure? {
      return Failure(extracted.error);
    }
    var code := extracted.value;

    var safeGlobals := PlanGlobals(userRequest);
    var safeLocals := new PyDict(PlanLocals(db, inventoryTbl, transactionsTbl));
    var printed, errText := RunCaptured(sys, store, code, safeGlobals, safeLocals, run);

    var answer := SelectAnswer(safeLocals.items);
    r := Success(ExecutionRecord(code, printed, errText, answer, store.transactions, store.inventory));
  }
}
