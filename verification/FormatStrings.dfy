/** Format strings, parsed at run time or compiled into a tree: both emit the same text and
    refer to the same arguments. Named arguments are not part of the model: a field with a
    name counts as an error. */
module FormatStrings {
  import opened DigitStrings
  import opened Decimals

  datatype Option<T> = None | Some(value: T)

  /** What is emitted: a character of text, an argument, or an argument with format specifiers. */
  datatype Token = Char(c: char) | Arg(id: int) | ArgSpec(id: int, spec: string)

  /** The parser of format specifiers, from a position behind the colon and for an argument:
      where the specifiers end. It is left abstract; specifiers do not refer to arguments. */
  type SpecParser = (string, nat, int) -> Option<nat>

  /** The arguments there are, and how their specifiers are parsed. */
  datatype Env = Env(numArgs: nat, specs: SpecParser)

  const MANUAL_INDEXING := -1

  // ----- what the run-time parser emits -----

  function CharTokens(s: string): seq<Token>
  {
    if s == "" then [] else CharTokens(s[..|s| - 1]) + [Char(s[|s| - 1])]
  }

  function Prepend(head: seq<Token>, tail: Option<seq<Token>>): Option<seq<Token>>
  {
    if tail.Some? then Some(head + tail.value) else None
  }

  /** A parsed part: what it emits, where it ends, and the next argument id. */
  datatype Part = Part(tokens: seq<Token>, end: nat, next: int)

  /** A number and where it ends, if a brace or a colon follows it. */
  function ArgId(fmt: string, p: nat): (r: Option<(int, nat)>)
    requires p < |fmt|
    ensures r.Some? ==> r.value.0 >= 0 && p < r.value.1 < |fmt| && fmt[r.value.1] in {'}', ':'}
  {
    if !IsDigit(fmt[p]) then None else
      var end := if fmt[p] == '0' then p + 1 else p + DigitPrefix(fmt[p..]);
      var id := if fmt[p] == '0' then 0 else Parsed(fmt[p..end], 0x7fff_ffff);
      if end < |fmt| && (fmt[end] == '}' || fmt[end] == ':') then
        ParsedIsNat(fmt, p);
        Some((id, end))
      else None
  }

  lemma ParsedIsNat(fmt: string, p: nat)
    requires p < |fmt| && IsDigit(fmt[p])
    ensures var k := DigitPrefix(fmt[p..]);
            k > 0 && Parsed(fmt[p..p + k], 0x7fff_ffff) >= 0
  {
    var k := DigitPrefix(fmt[p..]);
    assert fmt[p..][..k] == fmt[p..p + k];
    NumberBound(fmt[p..p + k]);
  }

  /** The rest of a field behind the argument: a brace, or specifiers and a brace. */
  function FieldEnd(env: Env, fmt: string, q: nat, id: int, next: int): (r: Option<Part>)
    requires q < |fmt|
    ensures r.Some? ==> q < r.value.end <= |fmt|
  {
    if fmt[q] == '}' then Some(Part([Arg(id)], q + 1, next))
    else if fmt[q] != ':' then None
    else
      var end := env.specs(fmt, q + 1, id);
      if end.Some? && q < end.value < |fmt| && fmt[end.value] == '}' then
        Some(Part([ArgSpec(id, fmt[q + 1..end.value])], end.value + 1, next))
      else None
  }

  /** A replacement field or an escaped brace, from the opening brace on. */
  function Field(env: Env, fmt: string, p: nat, next: int): (r: Option<Part>)
    requires p < |fmt|
    ensures r.Some? ==> p < r.value.end <= |fmt|
  {
    if p + 1 == |fmt| then None
    else if fmt[p + 1] == '{' then Some(Part([Char('{')], p + 2, next))
    else if fmt[p + 1] == '}' || fmt[p + 1] == ':' then
      if 0 <= next < env.numArgs then FieldEnd(env, fmt, p + 1, next, next + 1) else None
    else
      var id := ArgId(fmt, p + 1);
      if id.Some? && next <= 0 && id.value.0 < env.numArgs then
        FieldEnd(env, fmt, id.value.1, id.value.0, MANUAL_INDEXING)
      else None
  }

  /** What a format string emits from position p on, or that it is rejected. */
  function Emitted(env: Env, fmt: string, p: nat, next: int): Option<seq<Token>>
    requires p <= |fmt|
    decreases |fmt| - p
  {
    if p == |fmt| then Some([])
    else if fmt[p] == '{' then
      var field := Field(env, fmt, p, next);
      if field.None? then None
      else Prepend(field.value.tokens, Emitted(env, fmt, field.value.end, field.value.next))
    else if fmt[p] == '}' then
      if p + 1 == |fmt| || fmt[p + 1] != '}' then None else Prepend([Char('}')], Emitted(env, fmt, p + 2, next))
    else
      Prepend([Char(fmt[p])], Emitted(env, fmt, p + 1, next))
  }

  // ----- the run-time parser -----

  /** Argument ids are given either automatically or by hand. */
  class ParseContext {
    var nextArgId: int

    constructor ()
      ensures nextArgId == 0
    {
      nextArgId := 0;
    }

    method NextArgId() returns (id: Option<int>)
      modifies this
      ensures old(nextArgId) < 0 ==> id == None && nextArgId == old(nextArgId)
      ensures old(nextArgId) >= 0 ==> id == Some(old(nextArgId)) && nextArgId == old(nextArgId) + 1
    {
      if nextArgId < 0 {
        return None;
      }
      id := Some(nextArgId);
      nextArgId := nextArgId + 1;
    }

    method CheckArgId() returns (ok: bool)
      modifies this
      ensures ok == (old(nextArgId) <= 0)
      ensures nextArgId == if ok then MANUAL_INDEXING else old(nextArgId)
    {
      if nextArgId > 0 {
        return false;
      }
      nextArgId := MANUAL_INDEXING;
      return true;
    }
  }

  /** The handler that formats: it keeps the parse context and the output. */
  class FormatHandler {
    const env: Env
    const context: ParseContext
    var out: seq<Token>

    constructor (env: Env)
      ensures this.env == env && fresh(context) && context.nextArgId == 0 && out == []
    {
      this.env := env;
      context := new ParseContext();
      out := [];
    }

    method OnText(s: string)
      modifies this
      ensures out == old(out) + CharTokens(s)
    {
      out := out + CharTokens(s);
    }

    method OnReplacementField(id: int) returns (ok: bool)
      modifies this
      ensures ok == (0 <= id < env.numArgs) && out == old(out) + if ok then [Arg(id)] else []
    {
      ok := 0 <= id < env.numArgs;
      if ok {
        out := out + [Arg(id)];
      }
    }

    /** Parses the specifiers and formats the argument with them. */
    method OnFormatSpecs(id: int, fmt: string, begin: nat) returns (end: Option<nat>)
      requires begin <= |fmt|
      modifies this
      ensures end == if 0 <= id < env.numArgs && env.specs(fmt, begin, id).Some?
                        && begin <= env.specs(fmt, begin, id).value <= |fmt|
                     then env.specs(fmt, begin, id) else None
      ensures out == old(out) + if end.Some? then [ArgSpec(id, fmt[begin..end.value])] else []
    {
      end := if 0 <= id < env.numArgs then env.specs(fmt, begin, id) else None;
      if end.Some? && begin <= end.value <= |fmt| {
        out := out + [ArgSpec(id, fmt[begin..end.value])];
      } else {
        end := None;
      }
    }
  }

  method ParseArgId(fmt: string, begin: nat) returns (r: Option<(int, nat)>)
    requires begin < |fmt|
    ensures r == ArgId(fmt, begin)
  {
    if !IsDigit(fmt[begin]) {
      return None;
    }
    var index, end := 0, begin;
    if fmt[begin] != '0' {
      var digits;
      index, digits := ParseNonnegativeInt(fmt[begin..], 0x7fff_ffff);
      end := begin + digits;
      assert fmt[begin..][..digits] == fmt[begin..end];
    } else {
      end := begin + 1;
    }
    if end == |fmt| || (fmt[end] != '}' && fmt[end] != ':') {
      return None;
    }
    return Some((index, end));
  }

  lemma OpeningBrace()
    ensures CharTokens("{") == [Char('{')]
  {
    assert "{"[..0] == "";
  }

  /** Parses a field from its opening brace on, and calls the handler. */
  method ParseReplacementField(h: FormatHandler, fmt: string, start: nat) returns (end: Option<nat>)
    requires start < |fmt|
    modifies h, h.context
    ensures var field := Field(h.env, fmt, start, old(h.context.nextArgId));
            && (end.Some? <==> field.Some?)
            && (end.Some? ==> end.value == field.value.end && h.context.nextArgId == field.value.next
                              && h.out == old(h.out) + field.value.tokens)
  {
    hide ArgId;
    var begin := start + 1;
    if begin == |fmt| {
      return None;
    }
    var argId := 0;
    if fmt[begin] == '}' {
      var id := h.context.NextArgId();
      if id.None? {
        return None;
      }
      var ok := h.OnReplacementField(id.value);
      return if ok then Some(begin + 1) else None;
    } else if fmt[begin] == '{' {
      OpeningBrace();
      h.OnText("{");
      return Some(begin + 1);
    } else if fmt[begin] == ':' {
      var id := h.context.NextArgId();
      if id.None? {
        return None;
      }
      argId := id.value;
    } else {
      var id := ParseArgId(fmt, begin);
      if id.None? {
        return None;
      }
      var ok := h.context.CheckArgId();
      if !ok {
        return None;
      }
      argId, begin := id.value.0, id.value.1;
      if fmt[begin] == '}' {
        ok := h.OnReplacementField(argId);
        return if ok then Some(begin + 1) else None;
      }
    }
    var specsEnd := h.OnFormatSpecs(argId, fmt, begin + 1);
    if specsEnd.None? || specsEnd.value == |fmt| || fmt[specsEnd.value] != '}' {
      return None;
    }
    return Some(specsEnd.value + 1);
  }

  lemma PrependTwice(a: seq<Token>, b: seq<Token>, r: Option<seq<Token>>)
    ensures Prepend(a, Prepend(b, r)) == Prepend(a + b, r)
  {
    if r.Some? {
      assert a + (b + r.value) == a + b + r.value;
    }
  }

  /** The tokens given out, and the text from begin to p that is not yet given out. */
  ghost predicate InText(env: Env, fmt: string, begin: nat, p: nat, out: seq<Token>, next: int)
  {
    begin <= p <= |fmt|
    && Emitted(env, fmt, 0, 0) == Prepend(out + CharTokens(fmt[begin..p]), Emitted(env, fmt, p, next))
  }

  lemma TextStart(env: Env, fmt: string)
    ensures InText(env, fmt, 0, 0, [], 0)
  {
    assert fmt[0..0] == "" && [] + CharTokens(fmt[0..0]) == [];
    if Emitted(env, fmt, 0, 0).Some? {
      assert [] + Emitted(env, fmt, 0, 0).value == Emitted(env, fmt, 0, 0).value;
    }
  }

  lemma TextStep(env: Env, fmt: string, begin: nat, p: nat, out: seq<Token>, next: int)
    requires InText(env, fmt, begin, p, out, next) && p < |fmt| && fmt[p] != '{' && fmt[p] != '}'
    ensures InText(env, fmt, begin, p + 1, out, next)
  {
    assert fmt[begin..p + 1][..p - begin] == fmt[begin..p];
    assert out + CharTokens(fmt[begin..p]) + [Char(fmt[p])] == out + CharTokens(fmt[begin..p + 1]);
    PrependTwice(out + CharTokens(fmt[begin..p]), [Char(fmt[p])], Emitted(env, fmt, p + 1, next));
  }

  lemma TextEscape(env: Env, fmt: string, begin: nat, p: nat, out: seq<Token>, next: int)
    requires InText(env, fmt, begin, p, out, next) && p + 1 < |fmt| && fmt[p] == fmt[p + 1] == '}'
    ensures InText(env, fmt, p + 2, p + 2, out + CharTokens(fmt[begin..p + 1]), next)
  {
    assert fmt[begin..p + 1][..p - begin] == fmt[begin..p];
    var given := out + CharTokens(fmt[begin..p + 1]);
    assert out + CharTokens(fmt[begin..p]) + [Char('}')] == given;
    PrependTwice(out + CharTokens(fmt[begin..p]), [Char('}')], Emitted(env, fmt, p + 2, next));
    assert given + CharTokens(fmt[p + 2..p + 2]) == given;
  }

  lemma TextField(env: Env, fmt: string, begin: nat, p: nat, out: seq<Token>, next: int)
    requires InText(env, fmt, begin, p, out, next) && p < |fmt| && fmt[p] == '{'
    ensures var field := Field(env, fmt, p, next);
            && (field.None? ==> Emitted(env, fmt, 0, 0) == None)
            && (field.Some? ==> InText(env, fmt, field.value.end, field.value.end,
                                       out + CharTokens(fmt[begin..p]) + field.value.tokens, field.value.next))
  {
    var field := Field(env, fmt, p, next);
    if field.Some? {
      var end, given := field.value.end, out + CharTokens(fmt[begin..p]) + field.value.tokens;
      PrependTwice(out + CharTokens(fmt[begin..p]), field.value.tokens, Emitted(env, fmt, end, field.value.next));
      assert given + CharTokens(fmt[end..end]) == given;
    }
  }

  /** The run-time parser: text is given to the handler in runs, fields one by one. */
  method ParseFormatString(env: Env, fmt: string) returns (r: Option<seq<Token>>)
    ensures r == Emitted(env, fmt, 0, 0)
  {
    hide InText, Field;
    var h := new FormatHandler(env);
    var begin: nat, p: nat := 0, 0;
    TextStart(env, fmt);
    while p != |fmt|
      invariant h.env == env && fresh(h) && fresh(h.context) && begin <= p <= |fmt|
      invariant InText(env, fmt, begin, p, h.out, h.context.nextArgId)
      decreases |fmt| - p
    {
      var c := fmt[p];
      p := p + 1;
      if c == '{' {
        TextField(env, fmt, begin, p - 1, h.out, h.context.nextArgId);
        FieldAdvances(env, fmt, p - 1, h.context.nextArgId);
        h.OnText(fmt[begin..p - 1]);
        var end := ParseReplacementField(h, fmt, p - 1);
        if end.None? {
          return None;
        }
        begin := end.value;
        p := begin;
      } else if c == '}' {
        if p == |fmt| || fmt[p] != '}' {
          LoneBraceRejected(env, fmt, begin, p - 1, h.out, h.context.nextArgId);
          return None;
        }
        TextEscape(env, fmt, begin, p - 1, h.out, h.context.nextArgId);
        h.OnText(fmt[begin..p]);
        p := p + 1;
        begin := p;
      } else {
        TextStep(env, fmt, begin, p - 1, h.out, h.context.nextArgId);
      }
    }
    TextEnd(env, fmt, begin, h.out, h.context.nextArgId);
    h.OnText(fmt[begin..]);
    r := Some(h.out);
  }

  lemma FieldAdvances(env: Env, fmt: string, p: nat, next: int)
    requires p < |fmt|
    ensures var field := Field(env, fmt, p, next); field.Some? ==> p < field.value.end <= |fmt|
  {
  }

  lemma LoneBraceRejected(env: Env, fmt: string, begin: nat, p: nat, out: seq<Token>, next: int)
    requires InText(env, fmt, begin, p, out, next) && p < |fmt| && fmt[p] == '}'
    requires p + 1 == |fmt| || fmt[p + 1] != '}'
    ensures Emitted(env, fmt, 0, 0) == None
  {
  }

  lemma TextEnd(env: Env, fmt: string, begin: nat, out: seq<Token>, next: int)
    requires InText(env, fmt, begin, |fmt|, out, next)
    ensures Emitted(env, fmt, 0, 0) == Some(out + CharTokens(fmt[begin..]))
  {
    var given := out + CharTokens(fmt[begin..]);
    assert fmt[begin..|fmt|] == fmt[begin..] && given + [] == given;
  }

  // ----- compiled format strings -----

  datatype Tree = Text(s: string) | CodeUnit(c: char) | FieldOf(id: int) | SpecFieldOf(id: int, spec: string)
                | Concat(lhs: Tree, rhs: Tree)

  /** Formatting with a tree. */
  function Format(t: Tree): seq<Token>
  {
    match t
    case Text(s) => CharTokens(s)
    case CodeUnit(c) => [Char(c)]
    case FieldOf(id) => [Arg(id)]
    case SpecFieldOf(id, spec) => [ArgSpec(id, spec)]
    case Concat(lhs, rhs) => Format(lhs) + Format(rhs)
  }

  /** The end of the text without braces. */
  function ParseText(str: string, pos: nat): (end: nat)
    requires pos <= |str|
    ensures pos <= end <= |str| && (end < |str| ==> str[end] == '{' || str[end] == '}')
    ensures forall i :: pos <= i < end ==> str[i] != '{' && str[i] != '}'
    decreases |str| - pos
  {
    if pos == |str| || str[pos] == '{' || str[pos] == '}' then pos else ParseText(str, pos + 1)
  }

  function ParseTail(env: Env, head: Tree, fmt: string, pos: nat, id: int): Option<Tree>
    requires pos <= |fmt|
    decreases |fmt| - pos, 2
  {
    if pos == |fmt| then Some(head) else
      var tail := CompileFormatString(env, fmt, pos, id);
      if tail.Some? then Some(Concat(head, tail.value)) else None
  }

  function ParseReplacementFieldThenTail(env: Env, fmt: string, end: nat, arg: int, next: int): Option<Tree>
    requires end < |fmt|
    decreases |fmt| - end, 0
  {
    if fmt[end] == '}' then ParseTail(env, FieldOf(arg), fmt, end + 1, next)
    else if fmt[end] != ':' then None
    else
      var specsEnd := env.specs(fmt, end + 1, arg);
      if specsEnd.None? || !(end < specsEnd.value < |fmt|) || fmt[specsEnd.value] != '}' then None
      else ParseTail(env, SpecFieldOf(arg, fmt[end + 1..specsEnd.value]), fmt, specsEnd.value + 1, next)
  }

  /** Compiles from a position on, with the next argument id. */
  function CompileFormatString(env: Env, fmt: string, pos: nat, id: int): Option<Tree>
    requires pos < |fmt|
    decreases |fmt| - pos, 1
  {
    if fmt[pos] == '{' then
      if pos + 1 == |fmt| then None
      else if fmt[pos + 1] == '{' then ParseTail(env, Text(fmt[pos..pos + 1]), fmt, pos + 2, id)
      else if fmt[pos + 1] == '}' || fmt[pos + 1] == ':' then
        if id == MANUAL_INDEXING || !(0 <= id < env.numArgs) then None
        else ParseReplacementFieldThenTail(env, fmt, pos + 1, id, id + 1)
      else
        var arg := ArgId(fmt, pos + 1);
        if arg.None? || !(id == MANUAL_INDEXING || id == 0) || arg.value.0 >= env.numArgs then None
        else ParseReplacementFieldThenTail(env, fmt, arg.value.1, arg.value.0, MANUAL_INDEXING)
    else if fmt[pos] == '}' then
      if pos + 1 == |fmt| then None else ParseTail(env, Text(fmt[pos..pos + 1]), fmt, pos + 2, id)
    else
      var end := ParseText(fmt, pos + 1);
      ParseTail(env, if end - pos > 1 then Text(fmt[pos..end]) else CodeUnit(fmt[pos]), fmt, end, id)
  }

  function Compile(env: Env, fmt: string): Option<Tree>
  {
    if fmt == "" then Some(Text("")) else CompileFormatString(env, fmt, 0, 0)
  }

  // ----- both emit the same -----

  /** The scan meets a closing brace outside of a field that another character follows. */
  ghost predicate LoneBrace(env: Env, fmt: string, p: nat, next: int)
    requires p <= |fmt|
    decreases |fmt| - p
  {
    if p == |fmt| then false
    else if fmt[p] == '{' then
      var field := Field(env, fmt, p, next);
      field.Some? && LoneBrace(env, fmt, field.value.end, field.value.next)
    else if fmt[p] == '}' then
      p + 1 < |fmt| && (fmt[p + 1] != '}' || LoneBrace(env, fmt, p + 2, next))
    else LoneBrace(env, fmt, p + 1, next)
  }

  /** A compiled string, or the lack of one, agrees with what the parser emits from p on. */
  ghost predicate Agrees(env: Env, fmt: string, p: nat, next: int, head: seq<Token>, tree: Option<Tree>)
    requires p <= |fmt|
  {
    && (LoneBrace(env, fmt, p, next) ==> Emitted(env, fmt, p, next).None?)
    && (!LoneBrace(env, fmt, p, next) ==>
          if tree.Some? then Prepend(head, Emitted(env, fmt, p, next)) == Some(Format(tree.value))
          else Emitted(env, fmt, p, next).None?)
  }

  lemma {:induction false} TailAgrees(env: Env, head: Tree, fmt: string, pos: nat, id: int)
    requires pos <= |fmt| && id >= MANUAL_INDEXING
    ensures Agrees(env, fmt, pos, id, Format(head), ParseTail(env, head, fmt, pos, id))
    decreases |fmt| - pos, 2
  {
    if pos < |fmt| {
      CompiledAgrees(env, fmt, pos, id);
      var tail := CompileFormatString(env, fmt, pos, id);
      if tail.Some? && Emitted(env, fmt, pos, id).Some? {
        assert [] + Emitted(env, fmt, pos, id).value == Emitted(env, fmt, pos, id).value;
      }
    } else {
      assert Format(head) + [] == Format(head);
    }
  }

  lemma {:induction false} FieldAgrees(env: Env, fmt: string, pos: nat, end: nat, arg: int, id: int, next: int)
    requires pos < end < |fmt| && fmt[pos] == '{' && next >= MANUAL_INDEXING
    requires Field(env, fmt, pos, id) == FieldEnd(env, fmt, end, arg, next)
    ensures Agrees(env, fmt, pos, id, [], ParseReplacementFieldThenTail(env, fmt, end, arg, next))
    decreases |fmt| - end, 0
  {
    var field := Field(env, fmt, pos, id);
    if field.Some? {
      var head := if fmt[end] == '}' then FieldOf(arg) else SpecFieldOf(arg, field.value.tokens[0].spec);
      TailAgrees(env, head, fmt, field.value.end, next);
      PrependNothing(Emitted(env, fmt, pos, id));
    }
  }

  lemma PrependNothing(r: Option<seq<Token>>)
    ensures Prepend([], r) == r
  {
    if r.Some? {
      assert [] + r.value == r.value;
    }
  }

  /** Text without braces is emitted character by character. */
  lemma {:induction false} TextEmitted(env: Env, fmt: string, p: nat, end: nat, next: int)
    requires p <= end <= |fmt| && forall i :: p <= i < end ==> fmt[i] != '{' && fmt[i] != '}'
    ensures Emitted(env, fmt, p, next) == Prepend(CharTokens(fmt[p..end]), Emitted(env, fmt, end, next))
    ensures LoneBrace(env, fmt, p, next) == LoneBrace(env, fmt, end, next)
    decreases end - p
  {
    if p == end {
      assert fmt[p..end] == "";
      PrependNothing(Emitted(env, fmt, end, next));
    } else {
      TextEmitted(env, fmt, p, end - 1, next);
      assert fmt[p..end][..end - 1 - p] == fmt[p..end - 1];
      PrependTwice(CharTokens(fmt[p..end - 1]), [Char(fmt[end - 1])], Emitted(env, fmt, end, next));
    }
  }

  /** From every position the compiled tree emits what the parser emits, unless the compiler
      has passed over a lone closing brace, which the parser rejects. */
  lemma {:induction false} CompiledAgrees(env: Env, fmt: string, pos: nat, id: int)
    requires pos < |fmt| && id >= MANUAL_INDEXING
    ensures Agrees(env, fmt, pos, id, [], CompileFormatString(env, fmt, pos, id))
    decreases |fmt| - pos, 1
  {
    PrependNothing(Emitted(env, fmt, pos, id));
    if fmt[pos] == '{' && pos + 1 < |fmt| {
      if fmt[pos + 1] == '{' {
        SingleChar(fmt, pos);
        TailAgrees(env, Text(fmt[pos..pos + 1]), fmt, pos + 2, id);
      } else if fmt[pos + 1] == '}' || fmt[pos + 1] == ':' {
        if 0 <= id < env.numArgs {
          FieldAgrees(env, fmt, pos, pos + 1, id, id, id + 1);
        }
      } else {
        var arg := ArgId(fmt, pos + 1);
        if arg.Some? && id <= 0 && arg.value.0 < env.numArgs {
          FieldAgrees(env, fmt, pos, arg.value.1, arg.value.0, id, MANUAL_INDEXING);
        }
      }
    } else if fmt[pos] == '}' && pos + 1 < |fmt| {
      SingleChar(fmt, pos);
      TailAgrees(env, Text(fmt[pos..pos + 1]), fmt, pos + 2, id);
    } else if fmt[pos] != '{' && fmt[pos] != '}' {
      var end := ParseText(fmt, pos + 1);
      if end == pos + 1 {
        SingleChar(fmt, pos);
      }
      TextEmitted(env, fmt, pos, end, id);
      TailAgrees(env, if end - pos > 1 then Text(fmt[pos..end]) else CodeUnit(fmt[pos]), fmt, end, id);
    }
  }

  lemma SingleChar(fmt: string, pos: nat)
    requires pos < |fmt|
    ensures CharTokens(fmt[pos..pos + 1]) == [Char(fmt[pos])]
  {
    assert fmt[pos..pos + 1][..0] == "";
  }

  /** What the parser accepts is compiled to a tree that emits the same, and what is compiled
      is accepted by the parser exactly if no lone closing brace has been passed over. */
  lemma CompileRefinesParse(env: Env, fmt: string)
    ensures var emitted, tree := Emitted(env, fmt, 0, 0), Compile(env, fmt);
            && (emitted.Some? ==> tree.Some? && Format(tree.value) == emitted.value)
            && (tree.Some? ==> (emitted.Some? <==> !LoneBrace(env, fmt, 0, 0)))
  {
    if fmt != "" {
      CompiledAgrees(env, fmt, 0, 0);
      PrependNothing(Emitted(env, fmt, 0, 0));
    }
  }

  /** The compiler drops the character behind a lone brace; the parser rejects the string. */
  lemma LoneBraceCompiled(env: Env)
    ensures Emitted(env, "}a", 0, 0) == None
    ensures Compile(env, "}a") == Some(Text("}"))
  {
    assert "}a"[0..1] == "}";
  }

  // ----- doubled braces -----

  function Doubled(t: string): string
  {
    if t == "" then "" else
      (if t[0] == '{' then "{{" else if t[0] == '}' then "}}" else [t[0]]) + Doubled(t[1..])
  }

  lemma {:induction false} CharTokensCons(c: char, t: string)
    ensures CharTokens([c] + t) == [Char(c)] + CharTokens(t)
  {
    if t == "" {
      assert [c] + t == [c] && [c][..0] == "";
    } else {
      CharTokensCons(c, t[..|t| - 1]);
      assert ([c] + t)[..|t|] == [c] + t[..|t| - 1];
    }
  }

  /** The string s stands in fmt at position p. */
  predicate StandsAt(fmt: string, p: nat, s: string)
  {
    p + |s| <= |fmt| && fmt[p..p + |s|] == s
  }

  lemma StandsSplit(fmt: string, p: nat, a: string, b: string)
    requires StandsAt(fmt, p, a + b)
    ensures StandsAt(fmt, p, a) && StandsAt(fmt, p + |a|, b)
  {
    var all := fmt[p..p + |a + b|];
    assert all[..|a|] == a && all[|a|..] == b;
  }

  lemma StandsChar(fmt: string, p: nat, s: string, i: nat)
    requires StandsAt(fmt, p, s) && i < |s|
    ensures fmt[p + i] == s[i]
  {
    assert fmt[p + i] == fmt[p..p + |s|][i];
  }

  /** Doubled braces are emitted as text, wherever they stand. */
  lemma {:induction false} DoubledEmitted(env: Env, fmt: string, p: nat, t: string, next: int)
    requires StandsAt(fmt, p, Doubled(t))
    ensures Emitted(env, fmt, p, next) == Prepend(CharTokens(t), Emitted(env, fmt, p + |Doubled(t)|, next))
    decreases |t|
  {
    if t == "" {
      PrependNothing(Emitted(env, fmt, p, next));
    } else {
      var head := if t[0] == '{' then "{{" else if t[0] == '}' then "}}" else [t[0]];
      StandsSplit(fmt, p, head, Doubled(t[1..]));
      StandsChar(fmt, p, head, 0);
      StandsChar(fmt, p, head, |head| - 1);
      DoubledEmitted(env, fmt, p + |head|, t[1..], next);
      assert t == [t[0]] + t[1..];
      CharTokensCons(t[0], t[1..]);
      PrependTwice([Char(t[0])], CharTokens(t[1..]), Emitted(env, fmt, p + |Doubled(t)|, next));
    }
  }

  /** Doubling every brace of a text makes both emit the text. */
  lemma DoubledIsText(env: Env, t: string)
    ensures Emitted(env, Doubled(t), 0, 0) == Some(CharTokens(t))
    ensures Compile(env, Doubled(t)).Some? && Format(Compile(env, Doubled(t)).value) == CharTokens(t)
  {
    var fmt := Doubled(t);
    assert fmt[0..|fmt|] == fmt;
    DoubledEmitted(env, fmt, 0, t, 0);
    assert CharTokens(t) + [] == CharTokens(t);
    CompileRefinesParse(env, fmt);
  }

  // ----- what a format string says -----

  /** Text, a field that takes the next argument, or a field with the id of its argument. */
  datatype Piece = Plain(text: string) | Auto | Manual(digits: string)

  /** A decimal number without a leading zero. */
  ghost predicate IsId(digits: string)
  {
    digits != "" && AllDigits(digits) && (digits[0] == '0' ==> digits == "0")
  }

  /** The argument meant; what does not fit an int counts as the largest int. */
  function IdOf(digits: string): int
  {
    if Number(digits) <= 2147483647 then Number(digits) else 2147483647
  }

  function Spelled(piece: Piece): string
  {
    match piece
    case Plain(text) => Doubled(text)
    case Auto => "{}"
    case Manual(digits) => "{" + digits + "}"
  }

  function Render(pieces: seq<Piece>): string
  {
    if pieces == [] then "" else Spelled(pieces[0]) + Render(pieces[1..])
  }

  function Autos(pieces: seq<Piece>): nat
  {
    if pieces == [] then 0 else (if pieces[0].Auto? then 1 else 0) + Autos(pieces[1..])
  }

  /** What the pieces emit, with the first argument that is taken automatically. */
  function Meaning(pieces: seq<Piece>, first: int): seq<Token>
  {
    if pieces == [] then [] else
      match pieces[0]
      case Plain(text) => CharTokens(text) + Meaning(pieces[1..], first)
      case Auto => [Arg(first)] + Meaning(pieces[1..], first + 1)
      case Manual(digits) => [Arg(IdOf(digits))] + Meaning(pieces[1..], first)
  }

  ghost predicate WellFormed(pieces: seq<Piece>)
  {
    forall piece :: piece in pieces && piece.Manual? ==> IsId(piece.digits)
  }

  ghost predicate HasManual(pieces: seq<Piece>)
  {
    exists piece :: piece in pieces && piece.Manual?
  }

  /** All arguments are there, and they are not given both automatically and by hand, also not
      with what has been read before. */
  ghost predicate Accepted(env: Env, pieces: seq<Piece>, next: int)
  {
    && (forall piece :: piece in pieces && piece.Manual? ==> IdOf(piece.digits) < env.numArgs)
    && (Autos(pieces) > 0 ==> 0 <= next && next + Autos(pieces) <= env.numArgs)
    && (HasManual(pieces) ==> next <= 0 && Autos(pieces) == 0)
  }

  /** The next argument id behind the pieces. */
  ghost function NextId(pieces: seq<Piece>, next: int): int
  {
    if HasManual(pieces) then MANUAL_INDEXING else next + Autos(pieces)
  }

  /** The number in a field is read to its end, a zero as one digit; a brace or a colon must follow. */
  lemma IdRead(fmt: string, p: nat, digits: string)
    requires IsId(digits) && StandsAt(fmt, p, digits)
    requires digits == "0" || p + |digits| == |fmt| || !IsDigit(fmt[p + |digits|])
    ensures IsDigit(fmt[p])
    ensures var end := p + |digits|;
            ArgId(fmt, p) == if end < |fmt| && (fmt[end] == '}' || fmt[end] == ':') then Some((IdOf(digits), end)) else None
  {
    var end := p + |digits|;
    StandsChar(fmt, p, digits, 0);
    assert fmt[p..][..|digits|] == digits;
    PrefixEnds(fmt[p..], |digits|);
    NoLeadingZeroParsed(digits, 0x7fff_ffff);
    if digits == "0" {
      assert "0"[..0] == "";
    }
  }

  /** A field with an id, up to the brace or the colon behind it. */
  lemma ManualField(env: Env, fmt: string, p: nat, digits: string, next: int)
    requires IsId(digits) && p < |fmt| && fmt[p] == '{' && StandsAt(fmt, p + 1, digits)
    requires p + 1 + |digits| < |fmt| && fmt[p + 1 + |digits|] in {'}', ':'}
    ensures Field(env, fmt, p, next)
         == if next <= 0 && IdOf(digits) < env.numArgs then
              FieldEnd(env, fmt, p + 1 + |digits|, IdOf(digits), MANUAL_INDEXING)
            else None
  {
    hide FieldEnd, ArgId, IdOf;
    IdRead(fmt, p + 1, digits);
  }

  // ----- reading the pieces -----

  /** What one piece emits, whether it is accepted, and the next argument id behind it. */
  function Tokens(piece: Piece, next: int): seq<Token>
  {
    match piece
    case Plain(text) => CharTokens(text)
    case Auto => [Arg(next)]
    case Manual(digits) => [Arg(IdOf(digits))]
  }

  predicate Allowed(env: Env, piece: Piece, next: int)
  {
    match piece
    case Plain(_) => true
    case Auto => 0 <= next < env.numArgs
    case Manual(digits) => next <= 0 && IdOf(digits) < env.numArgs
  }

  function Behind(piece: Piece, next: int): int
  {
    match piece
    case Plain(_) => next
    case Auto => next + 1
    case Manual(_) => MANUAL_INDEXING
  }

  lemma PieceRead(env: Env, fmt: string, p: nat, piece: Piece, next: int)
    requires StandsAt(fmt, p, Spelled(piece)) && (piece.Manual? ==> IsId(piece.digits))
    ensures Emitted(env, fmt, p, next)
         == if Allowed(env, piece, next) then
              Prepend(Tokens(piece, next), Emitted(env, fmt, p + |Spelled(piece)|, Behind(piece, next)))
            else None
  {
    hide IsId, IdOf, CharTokens, ArgId, Doubled;
    match piece {
      case Plain(text) =>
        DoubledEmitted(env, fmt, p, text, next);
      case Auto =>
        StandsChar(fmt, p, "{}", 0);
        StandsChar(fmt, p, "{}", 1);
      case Manual(digits) =>
        StandsChar(fmt, p, Spelled(piece), 0);
        StandsChar(fmt, p, Spelled(piece), |digits| + 1);
        StandsSplit(fmt, p, "{" + digits, "}");
        StandsSplit(fmt, p, "{", digits);
        ManualField(env, fmt, p, digits, next);
    }
  }

  /** The first of the pieces, and the rest behind it. */
  lemma FirstPiece(env: Env, pieces: seq<Piece>, next: int)
    requires pieces != []
    ensures var piece, rest := pieces[0], pieces[1..];
            && Accepted(env, pieces, next) == (Allowed(env, piece, next) && Accepted(env, rest, Behind(piece, next)))
            && (Accepted(env, pieces, next) ==>
                  && NextId(pieces, next) == NextId(rest, Behind(piece, next))
                  && Meaning(pieces, next) == Tokens(piece, next) + Meaning(rest, Behind(piece, next)))
  {
    hide IdOf, CharTokens;
    assert pieces == [pieces[0]] + pieces[1..];
    assert forall piece :: piece in pieces <==> piece == pieces[0] || piece in pieces[1..];
    if pieces[0].Manual? && Autos(pieces[1..]) == 0 {
      NoAutos(pieces[1..], next, MANUAL_INDEXING);
    }
  }

  lemma {:induction false} NoAutos(pieces: seq<Piece>, first: int, other: int)
    requires Autos(pieces) == 0
    ensures Meaning(pieces, first) == Meaning(pieces, other)
  {
    if pieces != [] {
      NoAutos(pieces[1..], first, other);
    }
  }

  /** The pieces are read one by one, wherever they stand: they are accepted exactly if their
      arguments are there and are not given both ways, and then emit what they mean. */
  lemma {:induction false} PiecesRead(env: Env, fmt: string, p: nat, pieces: seq<Piece>, next: int)
    requires WellFormed(pieces) && next >= MANUAL_INDEXING && StandsAt(fmt, p, Render(pieces))
    ensures Emitted(env, fmt, p, next)
         == if Accepted(env, pieces, next) then
              Prepend(Meaning(pieces, next), Emitted(env, fmt, p + |Render(pieces)|, NextId(pieces, next)))
            else None
    decreases |pieces|
  {
    hide Emitted, Accepted, HasManual, NextId, Meaning, IsId, Spelled, Allowed, Tokens;
    if pieces == [] {
      NoPieces(env, next);
      PrependNothing(Emitted(env, fmt, p, next));
    } else {
      var piece, rest, behind := pieces[0], pieces[1..], Behind(pieces[0], next);
      FirstPiece(env, pieces, next);
      StandsSplit(fmt, p, Spelled(piece), Render(rest));
      PieceRead(env, fmt, p, piece, next);
      PiecesRead(env, fmt, p + |Spelled(piece)|, rest, behind);
      PrependTwice(Tokens(piece, next), Meaning(rest, behind), Emitted(env, fmt, p + |Render(pieces)|, NextId(rest, behind)));
    }
  }

  lemma NoPieces(env: Env, next: int)
    ensures Accepted(env, [], next) && NextId([], next) == next && Meaning([], next) == []
  {
  }

  lemma StandsAlone(fmt: string)
    ensures StandsAt(fmt, 0, fmt)
  {
    assert fmt[0..|fmt|] == fmt;
  }

  /** A string of such pieces is accepted exactly if no argument is asked for that is not there,
      and none is taken automatically if another is given by hand. It emits what the pieces mean,
      also compiled. */
  lemma PiecesMean(env: Env, pieces: seq<Piece>)
    requires forall piece :: piece in pieces && piece.Manual? ==> IsId(piece.digits)
    ensures var emitted, tree := Emitted(env, Render(pieces), 0, 0), Compile(env, Render(pieces));
            && (emitted.Some? <==>
                  && (forall piece :: piece in pieces && piece.Manual? ==> IdOf(piece.digits) < env.numArgs)
                  && Autos(pieces) <= env.numArgs
                  && (Autos(pieces) > 0 ==> forall piece :: piece in pieces ==> !piece.Manual?))
            && (emitted.Some? ==> emitted.value == Meaning(pieces, 0))
            && (emitted.Some? ==> tree.Some? && Format(tree.value) == Meaning(pieces, 0))
  {
    hide Compile, Render, Autos, Meaning, IsId, IdOf;
    var fmt := Render(pieces);
    StandsAlone(fmt);
    PiecesRead(env, fmt, 0, pieces, 0);
    CompileRefinesParse(env, fmt);
    assert Meaning(pieces, 0) + [] == Meaning(pieces, 0);
  }

  /** The number in a field is the id of the argument emitted. */
  lemma FieldMeans(env: Env, digits: string)
    requires IsId(digits) && Number(digits) <= 0x7fff_ffff
    ensures Emitted(env, "{" + digits + "}", 0, 0)
         == if Number(digits) < env.numArgs then Some([Arg(Number(digits))]) else None
  {
    hide IsId, ArgId, Number;
    var fmt, n := "{" + digits + "}", Number(digits);
    assert fmt[1..1 + |digits|] == digits;
    ManualField(env, fmt, 0, digits, 0);
    assert [Arg(n)] + [] == [Arg(n)];
  }

  /** So it is with specifiers, if they end at the brace. */
  lemma SpecFieldMeans(env: Env, fmt: string, digits: string, spec: string)
    requires IsId(digits) && Number(digits) <= 0x7fff_ffff && fmt == "{" + digits + ":" + spec + "}"
    requires env.specs(fmt, |digits| + 2, Number(digits)) == Some(|digits| + |spec| + 2)
    ensures Emitted(env, fmt, 0, 0)
         == if Number(digits) < env.numArgs then Some([ArgSpec(Number(digits), spec)]) else None
  {
    hide IsId, Number, Field, FieldEnd, Emitted, StandsAt;
    SpecStands(fmt, digits, spec);
    SpecsRead(env, fmt, |digits| + 1, spec, Number(digits));
    ManualField(env, fmt, 0, digits, 0);
    OneField(env, fmt, ArgSpec(Number(digits), spec));
  }

  /** Without an id the first argument is meant. */
  lemma AutoSpecMeans(env: Env, fmt: string, spec: string)
    requires fmt == "{:" + spec + "}" && env.specs(fmt, 2, 0) == Some(|spec| + 2)
    ensures Emitted(env, fmt, 0, 0) == if env.numArgs > 0 then Some([ArgSpec(0, spec)]) else None
  {
    assert fmt[1..] == ":" + spec + "}" && fmt[0] == '{' && fmt[1] == ':';
    assert fmt[2..2 + |spec|] == spec && fmt[2 + |spec|] == '}';
    assert [ArgSpec(0, spec)] + [] == [ArgSpec(0, spec)];
  }

  /** Specifiers that are rejected, or do not end at a brace, reject the string. */
  lemma SpecsRejected(env: Env, fmt: string, digits: string)
    requires IsId(digits) && StandsAt(fmt, 0, "{" + digits + ":")
    requires var end := env.specs(fmt, |digits| + 2, IdOf(digits));
             end.None? || end.value >= |fmt| || fmt[end.value] != '}'
    ensures Emitted(env, fmt, 0, 0) == None
  {
    hide IsId, IdOf, Field, Emitted;
    StandsChar(fmt, 0, "{" + digits + ":", 0);
    StandsChar(fmt, 0, "{" + digits + ":", |digits| + 1);
    StandsSplit(fmt, 0, "{" + digits, ":");
    StandsSplit(fmt, 0, "{", digits);
    ManualField(env, fmt, 0, digits, 0);
    OneField(env, fmt, Char('{'));
  }

  lemma SpecStands(fmt: string, digits: string, spec: string)
    requires fmt == "{" + digits + ":" + spec + "}"
    ensures |fmt| == |digits| + |spec| + 3 && fmt[0] == '{' && StandsAt(fmt, 1, digits)
    ensures fmt[|digits| + 1..] == ":" + spec + "}" && fmt[|digits| + 1] == ':'
  {
    assert fmt[1..1 + |digits|] == digits;
  }

  lemma OneField(env: Env, fmt: string, token: Token)
    requires fmt != "" && fmt[0] == '{'
    ensures Field(env, fmt, 0, 0) == Some(Part([token], |fmt|, MANUAL_INDEXING)) ==> Emitted(env, fmt, 0, 0) == Some([token])
    ensures Field(env, fmt, 0, 0) == None ==> Emitted(env, fmt, 0, 0) == None
  {
    hide Field;
    assert [token] + [] == [token];
  }

  lemma SpecsRead(env: Env, fmt: string, q: nat, spec: string, id: int)
    requires q < |fmt| && fmt[q..] == ":" + spec + "}" && env.specs(fmt, q + 1, id) == Some(q + 1 + |spec|)
    ensures FieldEnd(env, fmt, q, id, MANUAL_INDEXING) == Some(Part([ArgSpec(id, spec)], |fmt|, MANUAL_INDEXING))
  {
    var rest, end := fmt[q..], q + 1 + |spec|;
    assert |fmt| == end + 1 && fmt[q] == rest[0] && fmt[end] == rest[1 + |spec|];
    assert fmt[q + 1..end] == rest[1..1 + |spec|] == spec;
  }

  /** A field that is not closed, an id that something else follows, such as a digit behind a zero,
      neither id nor colon, or a lone closing brace. */
  ghost predicate Malformed(tail: string)
  {
    || tail == "{"
    || (exists digits :: IsId(digits) && OddId(tail, digits))
    || (|tail| > 1 && tail[0] == '{' && tail[1] !in {'{', '}', ':'} && !IsDigit(tail[1]))
    || tail == "}"
    || (|tail| > 1 && tail[0] == '}' && tail[1] != '}')
  }

  predicate OddId(tail: string, digits: string)
  {
    && |tail| > |digits| && tail[..|digits| + 1] == "{" + digits
    && (|tail| > |digits| + 1 ==> var c := tail[|digits| + 1]; c != '}' && c != ':' && (IsDigit(c) ==> digits == "0"))
  }

  lemma OddIdRejected(env: Env, fmt: string, p: nat, digits: string, next: int)
    requires p < |fmt| && IsId(digits) && OddId(fmt[p..], digits)
    ensures fmt[p] == '{' && Field(env, fmt, p, next) == None
  {
    hide IsId, IdOf;
    var tail := fmt[p..];
    assert tail[0] == tail[..|digits| + 1][0];
    assert fmt[p + 1..p + 1 + |digits|] == tail[..|digits| + 1][1..] == digits;
    IdRead(fmt, p + 1, digits);
  }

  lemma MalformedHere(env: Env, fmt: string, p: nat, next: int)
    requires p <= |fmt| && Malformed(fmt[p..])
    ensures Emitted(env, fmt, p, next) == None
  {
    hide IsId, IdOf;
    var tail := fmt[p..];
    assert p < |fmt| && fmt[p] == tail[0] && (|tail| > 1 ==> fmt[p + 1] == tail[1]);
    if digits :| IsId(digits) && OddId(tail, digits) {
      OddIdRejected(env, fmt, p, digits, next);
    }
  }

  /** A string that ends in something malformed is rejected, whatever pieces stand before it. */
  lemma MalformedRejected(env: Env, pieces: seq<Piece>, tail: string)
    requires WellFormed(pieces) && Malformed(tail)
    ensures Emitted(env, Render(pieces) + tail, 0, 0) == None
  {
    hide Malformed, Emitted, WellFormed, Accepted, Render, Meaning;
    var fmt, p := Render(pieces) + tail, |Render(pieces)|;
    assert fmt[0..p] == Render(pieces) && fmt[p..] == tail;
    PiecesRead(env, fmt, 0, pieces, 0);
    MalformedHere(env, fmt, p, NextId(pieces, 0));
  }

  lemma {:induction false} AutoMeaning(pieces: seq<Piece>, first: int)
    requires forall i :: 0 <= i < |pieces| ==> pieces[i] == Auto
    ensures Autos(pieces) == |pieces| == |Meaning(pieces, first)|
    ensures forall i :: 0 <= i < |pieces| ==> Meaning(pieces, first)[i] == Arg(first + i)
  {
    if pieces != [] {
      AutoMeaning(pieces[1..], first + 1);
    }
  }

  /** Fields without an id take the arguments from the first one on. */
  lemma AutoIds(env: Env, pieces: seq<Piece>)
    requires forall i :: 0 <= i < |pieces| ==> pieces[i] == Auto
    ensures Emitted(env, Render(pieces), 0, 0)
         == if |pieces| <= env.numArgs then Some(seq(|pieces|, i => Arg(i))) else None
  {
    hide Emitted, Compile, Meaning, Autos, Render;
    AutoMeaning(pieces, 0);
    assert forall piece :: piece in pieces ==> piece == Auto;
    PiecesMean(env, pieces);
    assert Meaning(pieces, 0) == seq(|pieces|, i => Arg(i));
  }
}
