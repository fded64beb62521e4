/**
 * The shell's command-list structure: `parse_line` turns the tokens of one
 * input line into a list of chains (separated by `;` or `&`), each a list of
 * commands joined by `&&` or `||`; `chain::run_chain` decides from each exit
 * status which command of a chain runs next, and `run` runs the chains in order.
 */
module Shell {
  import opened Common

  /** The token types `parse_shell_token` reports; `Other` is any type the parser does not recognise. */
  datatype TokenType = Normal | Sequence | Background | And | Or | Pipe | Other(code: int)

  datatype Token = Token(kind: TokenType, text: string)

  /** One command: its words and whether it is followed by `||` or `&&`. */
  datatype Command = Command(args: seq<string>, isOr: bool, isAnd: bool)

  /** One chain: its commands in order and whether it ended with `&`. */
  datatype Chain = Chain(commands: seq<Command>, isBackground: bool)

  const FreshCommand := Command([], false, false)
  const FreshChain := Chain([FreshCommand], false)

  // ---------------------------------------------------------------------
  // The command list a token sequence denotes
  // ---------------------------------------------------------------------

  /** The two levels of the grammar: chains are split at `;`/`&`, commands at `&&`/`||`. */
  datatype Level = ChainLevel | CommandLevel

  predicate IsDelimiter(t: Token, level: Level) {
    match level
    case ChainLevel => t.kind == Sequence || t.kind == Background
    case CommandLevel => t.kind == And || t.kind == Or
  }

  /** A token that the parser adds to the current command's words. */
  predicate IsWord(t: Token) {
    t.kind.Normal? || t.kind.Other?
  }

  /** A stretch of tokens closed by the delimiter that ends it. */
  datatype Piece = Piece(body: seq<Token>, delimiter: TokenType)

  /** Tokens cut at the delimiters of one level: the closed stretches and the open one after them. */
  datatype Cut = Cut(closed: seq<Piece>, open: seq<Token>)

  /** The cut `c` followed by one more token: a delimiter closes the open stretch, any other token joins it. */
  function Extend(c: Cut, t: Token, level: Level): Cut {
    if IsDelimiter(t, level) then Cut(c.closed + [Piece(c.open, t.kind)], [])
    else Cut(c.closed, c.open + [t])
  }

  /** `toks` cut at every delimiter of `level`. */
  function Split(toks: seq<Token>, level: Level): Cut {
    if toks == [] then Cut([], [])
    else Extend(Split(toks[..|toks| - 1], level), toks[|toks| - 1], level)
  }

  /** The words among `toks`, in order. */
  function Args(toks: seq<Token>): seq<string> {
    if toks == [] then []
    else Args(toks[..|toks| - 1]) + (if IsWord(toks[|toks| - 1]) then [toks[|toks| - 1].text] else [])
  }

  function ClosedCommand(pc: Piece): Command {
    Command(Args(pc.body), pc.delimiter == Or, pc.delimiter == And)
  }

  function OpenCommand(body: seq<Token>): Command {
    Command(Args(body), false, false)
  }

  function CommandsOf(pieces: seq<Piece>): (r: seq<Command>)
    ensures |r| == |pieces|
  {
    if pieces == [] then []
    else CommandsOf(pieces[..|pieces| - 1]) + [ClosedCommand(pieces[|pieces| - 1])]
  }

  /** The commands of a cut chain: one per `&&`/`||` stretch, and the open one. */
  function CutCommands(d: Cut): (r: seq<Command>)
    ensures |r| == |d.closed| + 1
  {
    CommandsOf(d.closed) + [OpenCommand(d.open)]
  }

  /** The commands of one chain's tokens. */
  function Commands(body: seq<Token>): seq<Command> {
    CutCommands(Split(body, CommandLevel))
  }

  function ClosedChain(pc: Piece): Chain {
    Chain(Commands(pc.body), pc.delimiter == Background)
  }

  function OpenChain(body: seq<Token>): Chain {
    Chain(Commands(body), false)
  }

  function ChainsOf(pieces: seq<Piece>): (r: seq<Chain>)
    ensures |r| == |pieces|
  {
    if pieces == [] then []
    else ChainsOf(pieces[..|pieces| - 1]) + [ClosedChain(pieces[|pieces| - 1])]
  }

  /**
   * The chains `toks` denote: one per `;`/`&` stretch, and one for the
   * tokens after the last of them if there are any.
   */
  function Denote(toks: seq<Token>): seq<Chain> {
    DenoteCut(Split(toks, ChainLevel))
  }

  /** The chains of a cut line: the closed stretches, and the open one if it is not empty. */
  function DenoteCut(c: Cut): seq<Chain> {
    ChainsOf(c.closed) + (if c.open == [] then [] else [OpenChain(c.open)])
  }

  /** The command list `toks` denotes; none for a line without tokens. */
  function Parse(toks: seq<Token>): Option<seq<Chain>> {
    if toks == [] then None else Some(Denote(toks))
  }

  lemma SplitSnoc(toks: seq<Token>, t: Token, level: Level)
    ensures Split(toks + [t], level) == Extend(Split(toks, level), t, level)
  {
    assert (toks + [t])[..|toks|] == toks;
  }

  lemma CommandsSnoc(pieces: seq<Piece>, pc: Piece)
    ensures CommandsOf(pieces + [pc]) == CommandsOf(pieces) + [ClosedCommand(pc)]
  {
    assert (pieces + [pc])[..|pieces|] == pieces;
  }

  lemma ChainsSnoc(pieces: seq<Piece>, pc: Piece)
    ensures ChainsOf(pieces + [pc]) == ChainsOf(pieces) + [ClosedChain(pc)]
  {
    assert (pieces + [pc])[..|pieces|] == pieces;
  }

  lemma ArgsSnoc(toks: seq<Token>, t: Token)
    ensures Args(toks + [t]) == Args(toks) + (if IsWord(t) then [t.text] else [])
  {
    assert (toks + [t])[..|toks|] == toks;
  }

  lemma AppendAssoc<T>(a: seq<T>, b: seq<T>, c: seq<T>)
    ensures (a + b) + c == a + (b + c)
  {
  }

  lemma UpdateLast<T>(xs: seq<T>, a: T, b: T)
    ensures (xs + [a])[|xs| := b] == xs + [b]
  {
  }

  /** A final `;` or `&` leaves no open stretch; any other final token does. */
  lemma OpenAfter(toks: seq<Token>, level: Level)
    requires toks != []
    ensures Split(toks, level).open == [] <==> IsDelimiter(toks[|toks| - 1], level)
  {
  }

  // ---------------------------------------------------------------------
  // parse_line
  // ---------------------------------------------------------------------

  /** `c` with `x` appended to the words of its last command. */
  function AddArg(c: Chain, x: string): Chain
    requires c.commands != []
  {
    var n := |c.commands| - 1;
    c.(commands := c.commands[n := c.commands[n].(args := c.commands[n].args + [x])])
  }

  /** `c` with its last command marked `||` (or `&&`) and a fresh command after it. */
  function AddConditional(c: Chain, isOr: bool): Chain
    requires c.commands != []
  {
    var n := |c.commands| - 1;
    var marked := if isOr then c.commands[n].(isOr := true) else c.commands[n].(isAnd := true);
    c.(commands := c.commands[n := marked] + [FreshCommand])
  }

  /** What a token other than `;` and `&` does to the current chain. */
  function InChainStep(c: Chain, t: Token): Chain
    requires c.commands != []
  {
    if IsDelimiter(t, CommandLevel) then AddConditional(c, t.kind == Or)
    else if IsWord(t) then AddArg(c, t.text)
    else c
  }

  /** What one token does to the current chain: `;` and `&` set its background flag. */
  function ChainStep(c: Chain, t: Token): (r: Chain)
    requires c.commands != []
    ensures r.commands != []
  {
    if IsDelimiter(t, ChainLevel) then c.(isBackground := t.kind == Background)
    else InChainStep(c, t)
  }

  /** The effect of one token on the chain list, as the `switch` of `parse_line` has it: only the last chain changes. */
  function TokenStep(chains: seq<Chain>, t: Token): (r: seq<Chain>)
    requires chains != [] && chains[|chains| - 1].commands != []
    ensures |r| == |chains| && r[|r| - 1].commands != []
  {
    chains[|chains| - 1 := ChainStep(chains[|chains| - 1], t)]
  }

  /**
   * The chain list just before token `i` is processed: the first token
   * opens the first chain, a token after `;` or `&` opens a new one.
   */
  function Open(chains: seq<Chain>, toks: seq<Token>, i: nat): seq<Chain>
    requires i <= |toks|
  {
    if i == 0 then [FreshChain]
    else if IsDelimiter(toks[i - 1], ChainLevel) then chains + [FreshChain]
    else chains
  }

  /** The chain list the token loop of `parse_line` holds after the first `i` tokens. */
  function Scan(toks: seq<Token>, i: nat): (r: seq<Chain>)
    requires i <= |toks|
    ensures i == 0 <==> r == []
    ensures r != [] ==> r[|r| - 1].commands != []
  {
    if i == 0 then []
    else TokenStep(Open(Scan(toks, i - 1), toks, i - 1), toks[i - 1])
  }

  /** A `&&` or `||` closes the open command and opens a fresh one. */
  lemma CutConditional(d: Cut, t: Token)
    requires IsDelimiter(t, CommandLevel)
    ensures var cs := CutCommands(d);
            var n := |cs| - 1;
            CutCommands(Extend(d, t, CommandLevel)) == cs[n := ClosedCommand(Piece(d.open, t.kind))] + [FreshCommand]
  {
    var pc := Piece(d.open, t.kind);
    CommandsSnoc(d.closed, pc);
    UpdateLast(CommandsOf(d.closed), OpenCommand(d.open), ClosedCommand(pc));
  }

  /** Any other token inside a chain joins the open command, as a word if it is one. */
  lemma CutWord(d: Cut, t: Token)
    requires !IsDelimiter(t, CommandLevel)
    ensures var cs := CutCommands(d);
            var n := |cs| - 1;
            CutCommands(Extend(d, t, CommandLevel))
              == if IsWord(t) then cs[n := cs[n].(args := cs[n].args + [t.text])] else cs
  {
    ArgsSnoc(d.open, t);
    if IsWord(t) {
      UpdateLast(CommandsOf(d.closed), OpenCommand(d.open), OpenCommand(d.open + [t]));
    } else {
      assert OpenCommand(d.open + [t]) == OpenCommand(d.open);
    }
  }

  /** The chain `parse_line` works on for a cut chain: a `&&` or `||` closes its open command. */
  lemma ChainConditional(d: Cut, t: Token)
    requires IsDelimiter(t, CommandLevel)
    ensures Chain(CutCommands(Extend(d, t, CommandLevel)), false) == InChainStep(Chain(CutCommands(d), false), t)
  {
    CutConditional(d, t);
  }

  /** The chain `parse_line` works on for a cut chain: any other token joins its open command. */
  lemma ChainWord(d: Cut, t: Token)
    requires !IsDelimiter(t, ChainLevel) && !IsDelimiter(t, CommandLevel)
    ensures Chain(CutCommands(Extend(d, t, CommandLevel)), false) == InChainStep(Chain(CutCommands(d), false), t)
  {
    CutWord(d, t);
  }

  /** One more token inside a chain, seen through `Commands`. */
  lemma OpenChainStep(body: seq<Token>, t: Token)
    requires !IsDelimiter(t, ChainLevel)
    ensures OpenChain(body + [t]) == InChainStep(OpenChain(body), t)
  {
    var d := Split(body, CommandLevel);
    SplitSnoc(body, t, CommandLevel);
    if IsDelimiter(t, CommandLevel) {
      ChainConditional(d, t);
    } else {
      ChainWord(d, t);
    }
  }

  /** The chain list `parse_line` works on for a cut line: the closed chains and the open one. */
  function CutChains(c: Cut): (r: seq<Chain>)
    ensures r != [] && r[|r| - 1].commands != []
  {
    ChainsOf(c.closed) + [OpenChain(c.open)]
  }

  lemma FreshOpenChain()
    ensures OpenChain([]) == FreshChain
  {
  }

  /** Opening a chain, as `parse_line` does before each token, seen through the cut. */
  lemma OpenCut(chains: seq<Chain>, c: Cut, first: bool, afterDelimiter: bool)
    requires first ==> c == Cut([], [])
    requires !first ==> chains == DenoteCut(c) && (c.open == [] <==> afterDelimiter)
    ensures (if first then [FreshChain] else if afterDelimiter then chains + [FreshChain] else chains) == CutChains(c)
  {
    FreshOpenChain();
  }

  /** The chain list just before a token, seen through `Denote`. */
  lemma OpenDenotes(chains: seq<Chain>, toks: seq<Token>, i: nat)
    requires i <= |toks|
    requires i > 0 ==> chains == Denote(toks[..i])
    ensures Open(chains, toks, i) == CutChains(Split(toks[..i], ChainLevel))
  {
    if i == 0 {
      assert toks[..i] == [];
      OpenCut(chains, Split(toks[..i], ChainLevel), true, false);
    } else {
      OpenAfter(toks[..i], ChainLevel);
      OpenCut(chains, Split(toks[..i], ChainLevel), false, IsDelimiter(toks[i - 1], ChainLevel));
    }
  }

  /** A `;` or `&` closes the open chain, recording whether it runs in the background. */
  lemma CutDelimiter(c: Cut, t: Token)
    requires IsDelimiter(t, ChainLevel)
    ensures DenoteCut(Extend(c, t, ChainLevel)) == TokenStep(CutChains(c), t)
  {
    var pc := Piece(c.open, t.kind);
    ChainsSnoc(c.closed, pc);
    UpdateLast(ChainsOf(c.closed), OpenChain(c.open), ClosedChain(pc));
  }

  /** Any other token goes to the open chain. */
  lemma CutInChain(c: Cut, t: Token)
    requires !IsDelimiter(t, ChainLevel)
    ensures DenoteCut(Extend(c, t, ChainLevel)) == TokenStep(CutChains(c), t)
  {
    OpenChainStep(c.open, t);
    UpdateLast(ChainsOf(c.closed), OpenChain(c.open), OpenChain(c.open + [t]));
  }

  /** One token, as the `switch` of `parse_line` processes it, seen through `Denote`. */
  lemma StepDenotes(p: seq<Token>, t: Token)
    ensures Denote(p + [t]) == TokenStep(CutChains(Split(p, ChainLevel)), t)
  {
    SplitSnoc(p, t, ChainLevel);
    if IsDelimiter(t, ChainLevel) {
      CutDelimiter(Split(p, ChainLevel), t);
    } else {
      CutInChain(Split(p, ChainLevel), t);
    }
  }

  /** The token loop computes the command list the tokens denote. */
  lemma {:induction false} ScanDenotes(toks: seq<Token>, i: nat)
    requires 0 < i <= |toks|
    ensures Scan(toks, i) == Denote(toks[..i])
  {
    var p := toks[..i - 1];
    var t := toks[i - 1];
    assert toks[..i] == p + [t];
    if i > 1 {
      ScanDenotes(toks, i - 1);
    }
    OpenDenotes(Scan(toks, i - 1), toks, i - 1);
    StepDenotes(p, t);
  }

  lemma ParseScan(tokens: seq<Token>)
    ensures Parse(tokens) == if tokens == [] then None else Some(Scan(tokens, |tokens|))
  {
    if tokens != [] {
      ScanDenotes(tokens, |tokens|);
      assert tokens[..|tokens|] == tokens;
    }
  }

  /**
   * The start of each iteration of `parse_line`: the first token allocates
   * the first chain and its command, a token after `;` or `&` a new chain.
   */
  method OpenFor(chains: seq<Chain>, newChain: bool, ghost tokens: seq<Token>, ghost i: nat)
    returns (chains': seq<Chain>)
    requires i < |tokens| && chains == Scan(tokens, i)
    requires newChain <==> i > 0 && IsDelimiter(tokens[i - 1], ChainLevel)
    ensures chains' == Open(chains, tokens, i)
  {
    if chains == [] {
      chains' := [FreshChain];
    } else if newChain {
      chains' := chains + [FreshChain];
    } else {
      chains' := chains;
    }
  }

  /**
   * The `switch` of `parse_line` on one token: the chain list afterwards, and
   * whether the next token opens a new chain.
   */
  method ApplyToken(chains: seq<Chain>, t: Token) returns (chains': seq<Chain>, newChain: bool)
    requires chains != [] && chains[|chains| - 1].commands != []
    ensures chains' == TokenStep(chains, t)
    ensures newChain == IsDelimiter(t, ChainLevel)
  {
    var n := |chains| - 1;
    newChain := false;
    match t.kind {
      case Normal =>
        chains' := chains[n := AddArg(chains[n], t.text)];
      case Sequence =>
        chains' := chains[n := chains[n].(isBackground := false)];
        newChain := true;
      case Background =>
        chains' := chains[n := chains[n].(isBackground := true)];
        newChain := true;
      case Or =>
        chains' := chains[n := AddConditional(chains[n], true)];
      case And =>
        chains' := chains[n := AddConditional(chains[n], false)];
      case Pipe =>
        chains' := chains;
      case Other(_) =>
        chains' := chains[n := AddArg(chains[n], t.text)];
    }
  }

  /**
   * `parse_line`: the token loop of the source, building the chain list and
   * working always on the last chain and its last command. The result is
   * none exactly for a line without tokens, and otherwise the command list
   * the tokens denote.
   */
  method ParseLine(tokens: seq<Token>) returns (c: Option<seq<Chain>>)
    ensures c == Parse(tokens)
    ensures c == None <==> tokens == []
  {
    var chains: seq<Chain> := [];
    var newChain := false;
    var i := 0;
    while i < |tokens|
      invariant 0 <= i <= |tokens|
      invariant chains == Scan(tokens, i)
      invariant newChain <==> i > 0 && IsDelimiter(tokens[i - 1], ChainLevel)
    {
      chains := OpenFor(chains, newChain, tokens, i);
      chains, newChain := ApplyToken(chains, tokens[i]);
      i := i + 1;
    }
    ParseScan(tokens);
    if chains == [] {
      c := None;
    } else {
      c := Some(chains);
    }
  }

  // ---------------------------------------------------------------------
  // What the parsed structure keeps of the tokens
  // ---------------------------------------------------------------------

  /** All words of `cmds`, command after command. */
  function CommandWords(cmds: seq<Command>): seq<string> {
    if cmds == [] then []
    else CommandWords(cmds[..|cmds| - 1]) + cmds[|cmds| - 1].args
  }

  /** All words of a command list, chain after chain. */
  function Words(chains: seq<Chain>): seq<string> {
    if chains == [] then []
    else Words(chains[..|chains| - 1]) + CommandWords(chains[|chains| - 1].commands)
  }

  /** The words of the closed stretches, stretch after stretch. */
  function PieceWords(pieces: seq<Piece>): seq<string> {
    if pieces == [] then []
    else PieceWords(pieces[..|pieces| - 1]) + Args(pieces[|pieces| - 1].body)
  }

  /** The number of delimiters of `level` among `toks`. */
  function Delimiters(toks: seq<Token>, level: Level): nat {
    if toks == [] then 0
    else Delimiters(toks[..|toks| - 1], level) + (if IsDelimiter(toks[|toks| - 1], level) then 1 else 0)
  }

  lemma PieceWordsSnoc(pieces: seq<Piece>, pc: Piece)
    ensures PieceWords(pieces + [pc]) == PieceWords(pieces) + Args(pc.body)
  {
    assert (pieces + [pc])[..|pieces|] == pieces;
  }

  lemma CommandWordsSnoc(cmds: seq<Command>, c: Command)
    ensures CommandWords(cmds + [c]) == CommandWords(cmds) + c.args
  {
    assert (cmds + [c])[..|cmds|] == cmds;
  }

  lemma WordsSnoc(chains: seq<Chain>, c: Chain)
    ensures Words(chains + [c]) == Words(chains) + CommandWords(c.commands)
  {
    assert (chains + [c])[..|chains|] == chains;
  }

  /** Cutting loses no word and reorders none: delimiters are never words. */
  lemma {:induction false} SplitWords(toks: seq<Token>, level: Level)
    ensures var c := Split(toks, level);
            Args(toks) == PieceWords(c.closed) + Args(c.open)
  {
    if toks != [] {
      var p := toks[..|toks| - 1];
      var t := toks[|toks| - 1];
      SplitWords(p, level);
      var c := Split(p, level);
      var w := if IsWord(t) then [t.text] else [];
      assert Args(toks) == Args(p) + w;
      if IsDelimiter(t, level) {
        assert w == [];
        assert Split(toks, level) == Cut(c.closed + [Piece(c.open, t.kind)], []);
        PieceWordsSnoc(c.closed, Piece(c.open, t.kind));
        assert Args(toks) == PieceWords(c.closed + [Piece(c.open, t.kind)]) + [];
      } else {
        assert Split(toks, level) == Cut(c.closed, c.open + [t]);
        ArgsSnoc(c.open, t);
        AppendAssoc(PieceWords(c.closed), Args(c.open), w);
      }
    }
  }

  /** One closed stretch per delimiter. */
  lemma {:induction false} SplitCount(toks: seq<Token>, level: Level)
    ensures |Split(toks, level).closed| == Delimiters(toks, level)
  {
    if toks != [] {
      var p := toks[..|toks| - 1];
      assert toks == p + [toks[|toks| - 1]];
      SplitCount(p, level);
      SplitSnoc(p, toks[|toks| - 1], level);
    }
  }

  lemma {:induction false} CommandsOfWords(pieces: seq<Piece>)
    ensures CommandWords(CommandsOf(pieces)) == PieceWords(pieces)
  {
    if pieces != [] {
      var q := pieces[..|pieces| - 1];
      var pc := pieces[|pieces| - 1];
      assert pieces == q + [pc];
      CommandsOfWords(q);
      CommandsSnoc(q, pc);
      CommandWordsSnoc(CommandsOf(q), ClosedCommand(pc));
      PieceWordsSnoc(q, pc);
    }
  }

  /** The commands of a chain hold exactly its words, in order. */
  lemma CommandsWords(body: seq<Token>)
    ensures CommandWords(Commands(body)) == Args(body)
  {
    var d := Split(body, CommandLevel);
    SplitWords(body, CommandLevel);
    CommandsOfWords(d.closed);
    CommandWordsSnoc(CommandsOf(d.closed), OpenCommand(d.open));
  }

  lemma {:induction false} ChainsOfWords(pieces: seq<Piece>)
    ensures Words(ChainsOf(pieces)) == PieceWords(pieces)
  {
    if pieces != [] {
      var q := pieces[..|pieces| - 1];
      var pc := pieces[|pieces| - 1];
      assert pieces == q + [pc];
      ChainsOfWords(q);
      ChainsSnoc(q, pc);
      CommandsWords(pc.body);
      WordsSnoc(ChainsOf(q), ClosedChain(pc));
      PieceWordsSnoc(q, pc);
    }
  }

  /**
   * Every normal or unrecognised token ends up as a word of some command,
   * in the order of the line, and nothing else does.
   */
  lemma ParseWords(toks: seq<Token>)
    ensures Parse(toks).Some? ==> Words(Parse(toks).value) == Args(toks)
  {
    var c := Split(toks, ChainLevel);
    SplitWords(toks, ChainLevel);
    ChainsOfWords(c.closed);
    if c.open != [] {
      CommandsWords(c.open);
      WordsSnoc(ChainsOf(c.closed), OpenChain(c.open));
    } else {
      assert ChainsOf(c.closed) + [] == ChainsOf(c.closed);
    }
  }

  /**
   * One chain per `;` or `&`, and one more when tokens follow the last of
   * them: a new chain is opened only when another token comes.
   */
  lemma ParseChainCount(toks: seq<Token>)
    requires toks != []
    ensures |Parse(toks).value| == Delimiters(toks, ChainLevel) + (if IsDelimiter(toks[|toks| - 1], ChainLevel) then 0 else 1)
  {
    SplitCount(toks, ChainLevel);
    OpenAfter(toks, ChainLevel);
  }

  /** A chain has one command per `&&` or `||` in it, and one more. */
  lemma CommandCount(body: seq<Token>)
    ensures |Commands(body)| == Delimiters(body, CommandLevel) + 1
  {
    SplitCount(body, CommandLevel);
  }

  // ---------------------------------------------------------------------
  // chain::run_chain and run
  // ---------------------------------------------------------------------

  /** What `waitpid` reports for a command: a normal exit with its status, or an abnormal end. */
  datatype WaitStatus = Exited(code: int) | Signaled

  /** Whether the link after `c` is an `||` link (`onOr`) or an `&&` link. */
  predicate Linked(c: Command, onOr: bool) {
    if onOr then c.isOr else c.isAnd
  }

  /** The first command at or after `j` that is not linked onward, or the end of the list. */
  function SkipFrom(cmds: seq<Command>, j: nat, onOr: bool): (r: nat)
    requires j <= |cmds|
    ensures j <= r <= |cmds|
    decreases |cmds| - j
  {
    if j < |cmds| && Linked(cmds[j], onOr) then SkipFrom(cmds, j + 1, onOr) else j
  }

  /** The command `run_chain` starts after command `i` ended with status `s`. */
  function Next(cmds: seq<Command>, i: nat, s: WaitStatus): nat
    requires i < |cmds|
  {
    match s
    case Signaled => i + 1
    case Exited(code) =>
      var j := SkipFrom(cmds, i, code == 0);
      if j < |cmds| then j + 1 else j
  }

  lemma {:induction false} SkipFromSpec(cmds: seq<Command>, j: nat, onOr: bool)
    requires j <= |cmds|
    ensures var r := SkipFrom(cmds, j, onOr);
            (forall k :: j <= k < r ==> Linked(cmds[k], onOr)) &&
            (r == |cmds| || !Linked(cmds[r], onOr))
    decreases |cmds| - j
  {
    if j < |cmds| && Linked(cmds[j], onOr) {
      SkipFromSpec(cmds, j + 1, onOr);
    }
  }

  /**
   * After a normal exit `run_chain` passes over every command reached through
   * `||` links (status 0) or `&&` links (any other status) from the command
   * just run, and starts the one after the first command without such a link;
   * after an abnormal end it starts the next command. Either way it moves
   * strictly forward.
   */
  lemma NextSpec(cmds: seq<Command>, i: nat, s: WaitStatus)
    requires i < |cmds|
    ensures var r := Next(cmds, i, s);
            i < r <= |cmds| &&
            match s
            case Signaled => r == i + 1
            case Exited(code) =>
              (forall k :: i <= k < r - 1 ==> Linked(cmds[k], code == 0)) &&
              (r == |cmds| || !Linked(cmds[r - 1], code == 0))
  {
    if s.Exited? {
      SkipFromSpec(cmds, i, s.code == 0);
    }
  }

  /** The commands a chain runs from command `i` on, the `k`-th run ending with
      `statuses[k]`; the run stops at a command without words, whose `make_child`
      assertion aborts the process running the chain. */
  function Runs(cmds: seq<Command>, statuses: seq<WaitStatus>, i: nat, k: nat): seq<nat>
    requires i <= |cmds| && |cmds| - i <= |statuses| - k
    decreases |cmds| - i
  {
    if i == |cmds| || cmds[i].args == [] then []
    else
      NextSpec(cmds, i, statuses[k]);
      [i] + Runs(cmds, statuses, Next(cmds, i, statuses[k]), k + 1)
  }

  /** Whether the run from command `i` on reaches a command without words. */
  predicate Aborts(cmds: seq<Command>, statuses: seq<WaitStatus>, i: nat, k: nat)
    requires i <= |cmds| && |cmds| - i <= |statuses| - k
    decreases |cmds| - i
  {
    i < |cmds|
    && (cmds[i].args == []
        || (NextSpec(cmds, i, statuses[k]);
            Aborts(cmds, statuses, Next(cmds, i, statuses[k]), k + 1)))
  }

  /** A chain runs commands in strictly increasing order, starting with the first
      when it has words, at most once each, and each one it runs has words. */
  lemma {:induction false} RunsOrdered(cmds: seq<Command>, statuses: seq<WaitStatus>, i: nat, k: nat)
    requires i <= |cmds| && |cmds| - i <= |statuses| - k
    ensures var r := Runs(cmds, statuses, i, k);
            |r| <= |cmds| - i &&
            (i < |cmds| && cmds[i].args != [] ==> r != [] && r[0] == i) &&
            (forall a :: 0 <= a < |r| ==> i <= r[a] < |cmds| && cmds[r[a]].args != []) &&
            (forall a, b :: 0 <= a < b < |r| ==> r[a] < r[b])
    decreases |cmds| - i
  {
    if i < |cmds| && cmds[i].args != [] {
      NextSpec(cmds, i, statuses[k]);
      RunsOrdered(cmds, statuses, Next(cmds, i, statuses[k]), k + 1);
    }
  }

  /** A chain whose every command has words never aborts. */
  lemma {:induction false} WordsNeverAbort(cmds: seq<Command>, statuses: seq<WaitStatus>, i: nat, k: nat)
    requires i <= |cmds| && |cmds| - i <= |statuses| - k
    requires forall j | 0 <= j < |cmds| :: cmds[j].args != []
    ensures !Aborts(cmds, statuses, i, k)
    decreases |cmds| - i
  {
    if i < |cmds| {
      NextSpec(cmds, i, statuses[k]);
      WordsNeverAbort(cmds, statuses, Next(cmds, i, statuses[k]), k + 1);
    }
  }

  /**
   * The step of `chain::run_chain` after command `cur` ended with `status`:
   * after a normal exit, walk over the commands linked onward by `||`
   * (status 0) or `&&` (any other status), then past the first one that is
   * not; after an abnormal end, go to the next command.
   */
  method Advance(cmds: seq<Command>, cur: nat, status: WaitStatus) returns (next: nat)
    requires cur < |cmds|
    ensures next == Next(cmds, cur, status)
  {
    next := cur;
    match status {
      case Exited(code) =>
        var onOr := code == 0;
        while next < |cmds| && Linked(cmds[next], onOr)
          invariant cur <= next <= |cmds|
          invariant SkipFrom(cmds, next, onOr) == SkipFrom(cmds, cur, onOr)
          decreases |cmds| - next
        {
          next := next + 1;
        }
        if next < |cmds| {
          next := next + 1;
        }
      case Signaled =>
        next := next + 1;
    }
  }

  /**
   * `chain::run_chain`: runs the chain's commands from the first, each
   * `waitpid` answering with the next entry of `statuses`; the result lists
   * the commands started, in order, and whether the run ended at a command
   * without words, where `make_child`'s assertion aborts.
   */
  method RunChain(cmds: seq<Command>, statuses: seq<WaitStatus>) returns (ran: seq<nat>, aborted: bool)
    requires |cmds| <= |statuses|
    ensures ran == Runs(cmds, statuses, 0, 0)
    ensures aborted == Aborts(cmds, statuses, 0, 0)
  {
    ran := [];
    var cur := 0;
    while cur < |cmds|
      invariant cur <= |cmds| && |cmds| - cur <= |statuses| - |ran|
      invariant ran + Runs(cmds, statuses, cur, |ran|) == Runs(cmds, statuses, 0, 0)
      invariant Aborts(cmds, statuses, cur, |ran|) == Aborts(cmds, statuses, 0, 0)
      decreases |cmds| - cur
    {
      if cmds[cur].args == [] {
        // make_child asserts that the command has words
        return ran, true;
      }
      // make_child and waitpid
      var status := statuses[|ran|];
      ghost var prior := ran;
      ghost var i := cur;
      ran := ran + [cur];
      NextSpec(cmds, i, status);
      cur := Advance(cmds, cur, status);
      assert prior + Runs(cmds, statuses, i, |prior|) == ran + Runs(cmds, statuses, cur, |ran|);
    }
    aborted := false;
  }

  /** Whether chain `ch` aborts the shell itself: it runs in the foreground and reaches a command without words. */
  predicate StopsShell(ch: Chain, statuses: seq<WaitStatus>)
    requires |ch.commands| <= |statuses|
  {
    !ch.isBackground && Aborts(ch.commands, statuses, 0, 0)
  }

  /**
   * `run`: runs the chains in list order, chain `c` seeing the statuses
   * `statuses[c]`; a background chain runs the same way in a child process,
   * so only a foreground chain's abort ends the shell, after that chain.
   */
  method Run(chains: seq<Chain>, statuses: seq<seq<WaitStatus>>) returns (runs: seq<seq<nat>>)
    requires |statuses| == |chains|
    requires forall c :: 0 <= c < |chains| ==> |chains[c].commands| <= |statuses[c]|
    ensures |runs| <= |chains|
    ensures forall c :: 0 <= c < |runs| ==> runs[c] == Runs(chains[c].commands, statuses[c], 0, 0)
    ensures forall c :: 0 <= c < |runs| - 1 ==> !StopsShell(chains[c], statuses[c])
    ensures |runs| < |chains| ==> runs != [] && StopsShell(chains[|runs| - 1], statuses[|runs| - 1])
  {
    runs := [];
    var c := 0;
    while c < |chains|
      invariant c <= |chains| && |runs| == c
      invariant forall d :: 0 <= d < c ==> runs[d] == Runs(chains[d].commands, statuses[d], 0, 0)
      invariant forall d :: 0 <= d < c ==> !StopsShell(chains[d], statuses[d])
    {
      var ran, aborted := RunChain(chains[c].commands, statuses[c]);
      runs := runs + [ran];
      if aborted && !chains[c].isBackground {
        return;
      }
      c := c + 1;
    }
  }
}
