/**
 The condition parser and evaluator of src/scan/yara.rs. Text is ASCII: on other text the operator
 search slices at byte positions that need not be character boundaries.
 */
module Yara {
  import opened Bytes

  datatype ConditionExpr =
    | StringRef(name: string)
    | AnyOfThem
    | AllOfThem
    | Not(inner: ConditionExpr)
    | And(left: ConditionExpr, right: ConditionExpr)
    | Or(left: ConditionExpr, right: ConditionExpr)
    | Boolean(value: bool)

  // For each string name, the offsets where it matched.
  type Matches = map<string, seq<nat>>

  predicate Evaluate(e: ConditionExpr, m: Matches) {
    match e
    case StringRef(name) => name in m && m[name] != []
    case AnyOfThem => exists name | name in m :: m[name] != []
    case AllOfThem => |m| != 0 && forall name | name in m :: m[name] != []
    case Not(inner) => !Evaluate(inner, m)
    case And(left, right) => Evaluate(left, m) && Evaluate(right, m)
    case Or(left, right) => Evaluate(left, m) || Evaluate(right, m)
    case Boolean(b) => b
  }

  /* What the words of a condition mean */

  // One of the strings, or all of them, written out as references.
  function AnyOf(names: seq<string>): ConditionExpr {
    if names == [] then Boolean(false) else Or(StringRef(names[0]), AnyOf(names[1..]))
  }

  function AllOf(names: seq<string>): ConditionExpr {
    if names == [] then Boolean(true) else And(StringRef(names[0]), AllOf(names[1..]))
  }

  /** A reference holds exactly when an offset is recorded for its name. */
  lemma ReferenceIff(name: string, m: Matches)
    ensures Evaluate(StringRef(name), m) <==> name in m && exists at :: at in m[name]
  {
    if name in m && m[name] != [] {
      assert m[name][0] in m[name];
    }
  }

  lemma {:induction false} AnyIff(names: seq<string>, m: Matches)
    ensures Evaluate(AnyOf(names), m) <==> exists k :: 0 <= k < |names| && Evaluate(StringRef(names[k]), m)
    ensures Evaluate(AllOf(names), m) <==> forall k | 0 <= k < |names| :: Evaluate(StringRef(names[k]), m)
  {
    if names != [] {
      AnyIff(names[1..], m);
      assert forall k | 0 < k < |names| :: names[k] == names[1..][k - 1];
      assert forall k | 0 <= k < |names| - 1 :: names[1..][k] == names[k + 1];
    }
  }

  /**
   `any of them` means the disjunction of references to all strings of the map, and `all of them` their
   conjunction, except that on an empty map it is false.
   */
  lemma ThemMeansAllNames(names: seq<string>, m: Matches)
    requires forall name :: name in names <==> name in m
    ensures Evaluate(AnyOfThem, m) == Evaluate(AnyOf(names), m)
    ensures Evaluate(AllOfThem, m) == (names != [] && Evaluate(AllOf(names), m))
  {
    AnyIff(names, m);
    if names == [] {
      assert m.Keys == {};
      assert |m| == |m.Keys|;
    } else {
      assert names[0] in m;
    }
    if Evaluate(AnyOfThem, m) {
      var name :| name in m && m[name] != [];
      var k :| 0 <= k < |names| && names[k] == name;
      assert Evaluate(StringRef(names[k]), m);
    }
    if Evaluate(AllOf(names), m) {
      forall name | name in m
        ensures m[name] != []
      {
        var k :| 0 <= k < |names| && names[k] == name;
        assert Evaluate(StringRef(names[k]), m);
      }
    }
  }

  /* Text */

  const OR_OP := " or "
  const AND_OP := " and "

  function Lower(c: char): char {
    if 'A' <= c <= 'Z' then c + 32 as char else c
  }

  predicate EqIgnoreCase(a: string, b: string) {
    |a| == |b| && forall i | 0 <= i < |a| :: Lower(a[i]) == Lower(b[i])
  }

  predicate IsSpace(c: char) {
    c == ' ' || '\t' <= c <= '\r'
  }

  function TrimStart(s: string): (t: string)
    ensures |t| <= |s|
  {
    if s != [] && IsSpace(s[0]) then TrimStart(s[1..]) else s
  }

  function TrimEnd(s: string): (t: string)
    ensures |t| <= |s|
  {
    if s != [] && IsSpace(s[|s| - 1]) then TrimEnd(s[..|s| - 1]) else s
  }

  function Trim(s: string): (t: string)
    ensures |t| <= |s|
  {
    TrimEnd(TrimStart(s))
  }

  /* The parser */

  function Later(r: Option<nat>, n: nat): Option<nat> {
    if r.None? then None else Some(r.value + n)
  }

  // The first occurrence of `op` outside parentheses, starting `depth` levels in.
  function FindOp(s: string, op: string, depth: nat): (r: Option<nat>)
    ensures r.Some? ==> r.value + |op| <= |s|
  {
    if s == [] then None
    else if s[0] == '(' then Later(FindOp(s[1..], op, depth + 1), 1)
    else if s[0] == ')' then Later(FindOp(s[1..], op, SatSub(depth, 1)), 1)
    else if depth == 0 && |op| <= |s| && EqIgnoreCase(s[..|op|], op) then Some(0)
    else Later(FindOp(s[1..], op, depth), 1)
  }

  // The first occurrence of `op` outside parentheses at or after `i`, where the depth is `depth`.
  function FindFrom(s: string, op: string, i: nat, depth: nat): Option<nat>
    requires i <= |s|
  {
    Later(FindOp(s[i..], op, depth), i)
  }

  lemma FindTurn(s: string, op: string, i: nat, depth: nat)
    requires i < |s|
    ensures FindFrom(s, op, i, depth) ==
            if s[i] == '(' then FindFrom(s, op, i + 1, depth + 1)
            else if s[i] == ')' then FindFrom(s, op, i + 1, SatSub(depth, 1))
            else if depth == 0 && i + |op| <= |s| && EqIgnoreCase(s[i..i + |op|], op) then Some(i)
            else FindFrom(s, op, i + 1, depth)
  {
    hide EqIgnoreCase;
    assert s[i..][1..] == s[i + 1..];
    assert i + |op| <= |s| ==> s[i..][..|op|] == s[i..i + |op|];
  }

  lemma FindEnds(s: string, op: string, depth: nat)
    ensures FindFrom(s, op, 0, 0) == FindOp(s, op, 0)
    ensures FindFrom(s, op, |s|, depth) == None
  {
    assert s[0..] == s;
  }

  method FindBinaryOperator(s: string, op: string) returns (r: Option<nat>)
    ensures r == FindOp(s, op, 0)
  {
    hide EqIgnoreCase, FindOp, FindFrom;
    FindEnds(s, op, 0);
    var depth: nat := 0;
    for i := 0 to |s|
      invariant FindOp(s, op, 0) == FindFrom(s, op, i, depth)
    {
      FindTurn(s, op, i, depth);
      if s[i] == '(' {
        depth := depth + 1;
      } else if s[i] == ')' {
        if depth > 0 {
          depth := depth - 1;
        }
      } else if depth == 0 && i + |op| <= |s| {
        if EqIgnoreCase(s[i..i + |op|], op) {
          return Some(i);
        }
      }
    }
    FindEnds(s, op, depth);
    r := None;
  }

  function ParseCondition(cond: string): ConditionExpr
    decreases |cond|
  {
    var t := Trim(cond);
    if t == [] then Boolean(true)
    else if EqIgnoreCase(t, "any of them") then AnyOfThem
    else if EqIgnoreCase(t, "all of them") then AllOfThem
    else if EqIgnoreCase(t, "true") then Boolean(true)
    else if EqIgnoreCase(t, "false") then Boolean(false)
    else
      var o := FindOp(t, OR_OP, 0);
      if o.Some? then Or(ParseCondition(t[..o.value]), ParseCondition(t[o.value + 4..])) else
      var a := FindOp(t, AND_OP, 0);
      if a.Some? then And(ParseCondition(t[..a.value]), ParseCondition(t[a.value + 5..]))
      else if "not " <= t then Not(ParseCondition(Trim(t[4..])))
      else if |t| >= 2 && t[0] == '(' && t[|t| - 1] == ')' then ParseCondition(t[1..|t| - 1])
      else if t[0] == '$' then StringRef(t)
      else Boolean(false)
  }

  /* The printer: operands in parentheses always (`full`), or only where the precedence of or, and, not asks for it */

  // An ASCII name the parser takes as one string reference.
  predicate ValidName(name: string) {
    && name != [] && name[0] == '$'
    && forall i | 0 <= i < |name| :: name[i] < 128 as char && !IsSpace(name[i]) && name[i] != '(' && name[i] != ')'
  }

  predicate ValidExpr(e: ConditionExpr) {
    match e
    case StringRef(name) => ValidName(name)
    case Not(inner) => ValidExpr(inner)
    case And(left, right) => ValidExpr(left) && ValidExpr(right)
    case Or(left, right) => ValidExpr(left) && ValidExpr(right)
    case _ => true
  }

  function Precedence(e: ConditionExpr): nat {
    match e
    case Or(_, _) => 0
    case And(_, _) => 1
    case _ => 2
  }

  function Print(e: ConditionExpr, full: bool): string
    decreases e, 0
  {
    match e
    case StringRef(name) => name
    case AnyOfThem => "any of them"
    case AllOfThem => "all of them"
    case Boolean(b) => if b then "true" else "false"
    case Not(inner) => "not " + Operand(inner, 2, full)
    case And(left, right) => Operand(left, 1, full) + AND_OP + Operand(right, 1, full)
    case Or(left, right) => Operand(left, 0, full) + OR_OP + Operand(right, 0, full)
  }

  function Operand(e: ConditionExpr, level: nat, full: bool): string
    decreases e, 1
  {
    if full || Precedence(e) < level then "(" + Print(e, full) + ")" else Print(e, full)
  }

  /* Searching across text that holds no operator */

  predicate IsOp(op: string) {
    op == OR_OP || op == AND_OP
  }

  // `s` already differs from `op`, whatever comes after `s`.
  predicate Differs(s: string, op: string) {
    s != [] && op != [] && (Lower(s[0]) != Lower(op[0]) || Differs(s[1..], op[1..]))
  }

  lemma {:induction false} DiffersExtends(s: string, more: string, op: string)
    requires Differs(s, op)
    ensures Differs(s + more, op)
  {
    assert (s + more)[1..] == s[1..] + more;
    if Lower(s[0]) == Lower(op[0]) {
      DiffersExtends(s[1..], more, op[1..]);
    }
  }

  lemma {:induction false} DiffersNotEqual(s: string, op: string)
    requires Differs(s, op) && |op| <= |s|
    ensures !EqIgnoreCase(s[..|op|], op)
  {
    var p := s[..|op|];
    if Lower(s[0]) == Lower(op[0]) {
      DiffersNotEqual(s[1..], op[1..]);
      assert p[1..] == s[1..][..|op| - 1];
      var i :| 0 <= i < |op| - 1 && Lower(p[1..][i]) != Lower(op[1..][i]);
      assert Lower(p[i + 1]) != Lower(op[i + 1]);
    } else {
      assert Lower(p[0]) != Lower(op[0]);
    }
  }

  // The depth after `s`, if no operator can start outside parentheses within it, whatever follows.
  function Scan(s: string, op: string, depth: nat): Option<nat> {
    if s == [] then Some(depth)
    else if s[0] == '(' then Scan(s[1..], op, depth + 1)
    else if s[0] == ')' then Scan(s[1..], op, SatSub(depth, 1))
    else if depth == 0 && !Differs(s, op) then None
    else Scan(s[1..], op, depth)
  }

  lemma {:induction false} ScanThenFind(a: string, b: string, op: string, depth: nat)
    requires Scan(a, op, depth).Some?
    ensures FindOp(a + b, op, depth) == Later(FindOp(b, op, Scan(a, op, depth).value), |a|)
    decreases |a|
  {
    if a == [] {
      assert a + b == b;
    } else {
      var s := a + b;
      assert s[1..] == a[1..] + b;
      var d := if a[0] == '(' then depth + 1 else if a[0] == ')' then SatSub(depth, 1) else depth;
      ScanThenFind(a[1..], b, op, d);
      if a[0] != '(' && a[0] != ')' && depth == 0 {
        DiffersExtends(a, b, op);
        if |op| <= |s| {
          DiffersNotEqual(s, op);
        }
      }
    }
  }

  lemma {:induction false} ScanConcat(a: string, b: string, op: string, depth: nat)
    requires Scan(a, op, depth).Some?
    ensures Scan(a + b, op, depth) == Scan(b, op, Scan(a, op, depth).value)
    decreases |a|
  {
    if a == [] {
      assert a + b == b;
    } else {
      assert (a + b)[1..] == a[1..] + b;
      var d := if a[0] == '(' then depth + 1 else if a[0] == ')' then SatSub(depth, 1) else depth;
      ScanConcat(a[1..], b, op, d);
      if a[0] != '(' && a[0] != ')' && depth == 0 {
        DiffersExtends(a, b, op);
      }
    }
  }

  // No operator occurs in `s` outside parentheses.
  lemma ScanFindsNothing(s: string, op: string)
    requires Scan(s, op, 0).Some?
    ensures FindOp(s, op, 0) == None
  {
    ScanThenFind(s, [], op, 0);
    assert s + [] == s;
  }

  predicate NoParens(s: string) {
    forall i | 0 <= i < |s| :: s[i] != '(' && s[i] != ')'
  }

  lemma {:induction false} ScanDeep(s: string, op: string, depth: nat)
    requires NoParens(s) && depth > 0
    ensures Scan(s, op, depth) == Some(depth)
  {
    if s != [] {
      ScanDeep(s[1..], op, depth);
    }
  }

  lemma {:induction false} ScanWord(s: string, op: string, depth: nat)
    requires NoParens(s) && IsOp(op) && forall i | 0 <= i < |s| :: s[i] != ' '
    ensures Scan(s, op, depth) == Some(depth)
  {
    if s != [] {
      ScanWord(s[1..], op, depth);
      assert Lower(op[0]) == ' ' && Lower(s[0]) != ' ';
    }
  }

  // After a space, `s` does not begin an operator.
  predicate HeadDiffers(s: string, op: string) {
    Differs(" " + s, op)
  }

  lemma ScanSpace(s: string, op: string, depth: nat)
    requires HeadDiffers(s, op)
    ensures Scan(" " + s, op, depth) == Scan(s, op, depth)
  {
    assert (" " + s)[1..] == s;
  }

  // A word, a space, and more text.
  lemma ScanWords(word: string, s: string, op: string, depth: nat)
    requires NoParens(word) && IsOp(op) && forall i | 0 <= i < |word| :: word[i] != ' '
    requires HeadDiffers(s, op)
    ensures Scan(word + " " + s, op, depth) == Scan(s, op, depth)
  {
    ScanWord(word, op, depth);
    ScanConcat(word, " " + s, op, depth);
    ScanSpace(s, op, depth);
    assert word + " " + s == word + (" " + s);
  }

  lemma ScanParens(s: string, op: string, depth: nat)
    requires Scan(s, op, depth + 1) == Some(depth + 1)
    ensures Scan("(" + s + ")", op, depth) == Some(depth)
  {
    var t := "(" + s + ")";
    assert t[1..] == s + ")";
    ScanConcat(s, ")", op, depth + 1);
    assert ")"[1..] == [];
  }

  /* What the printed texts look like to the search */

  lemma HeadFirst(s: string, op: string)
    requires IsOp(op) && s != [] && s[0] in {'(', '$', 't', 'f', 'n'}
    ensures HeadDiffers(s, op)
  {
    var x := " " + s;
    assert x[1..] == s && x[0] == ' ';
    assert op[1..] != [];
    assert Lower(op[1..][0]) != Lower(s[0]);
    assert Differs(s, op[1..]);
  }

  lemma HeadKeyword(rest: string, op: string)
    requires IsOp(op)
    ensures HeadDiffers("any" + rest, op) && HeadDiffers("all" + rest, op)
  {
    KeywordDiffers(op, 'n', 'y', rest);
    KeywordDiffers(op, 'l', 'l', rest);
    assert "any" + rest == ['a', 'n', 'y'] + rest;
    assert "all" + rest == ['a', 'l', 'l'] + rest;
  }

  lemma KeywordDiffers(op: string, b: char, c: char, rest: string)
    requires IsOp(op) && ((b == 'n' && c == 'y') || (b == 'l' && c == 'l'))
    ensures HeadDiffers(['a', b, c] + rest, op)
  {
    var s := ['a', b, c] + rest;
    var x := " " + s;
    assert x[1..] == s && s[1..] == [b, c] + rest && s[1..][1..] == [c] + rest;
    assert x[0] == ' ' && s[0] == 'a' && s[1..][0] == b && s[1..][1..][0] == c;
    assert op[1..] != [];
    if op == AND_OP {
      assert op[1..][1..] == "nd " && op[1..][1..][1..] == "d ";
      assert Differs(s[1..][1..], op[1..][1..][1..]);
      assert Differs(s[1..], op[1..][1..]);
    }
    assert Differs(s, op[1..]);
  }

  // Starts and ends with something other than white space.
  predicate Solid(s: string) {
    s != [] && !IsSpace(s[0]) && !IsSpace(s[|s| - 1])
  }

  lemma SolidTrim(s: string)
    requires Solid(s)
    ensures Trim(s) == s
  {
  }

  lemma {:induction false} PrintSolid(e: ConditionExpr, full: bool)
    requires ValidExpr(e)
    ensures Solid(Print(e, full))
    decreases e, 0
  {
    match e {
      case Not(inner) => OperandSolid(inner, 2, full);
      case And(left, right) => OperandSolid(left, 1, full); OperandSolid(right, 1, full);
      case Or(left, right) => OperandSolid(left, 0, full); OperandSolid(right, 0, full);
      case _ =>
    }
  }

  lemma {:induction false} OperandSolid(e: ConditionExpr, level: nat, full: bool)
    requires ValidExpr(e)
    ensures Solid(Operand(e, level, full))
    decreases e, 1
  {
    PrintSolid(e, full);
  }

  lemma HeadExtends(left: string, sep: string, right: string, op: string)
    requires HeadDiffers(left, op)
    ensures HeadDiffers(left + sep + right, op)
  {
    DiffersExtends(" " + left, sep + right, op);
    assert " " + left + (sep + right) == " " + (left + sep + right);
  }

  // An operand of `and` or `not` never starts like an operator.
  lemma {:induction false} OperandHead(e: ConditionExpr, level: nat, full: bool, op: string)
    requires ValidExpr(e) && IsOp(op)
    ensures HeadDiffers(Operand(e, level, full), op)
    decreases e, 1
  {
    if full || Precedence(e) < level {
      HeadFirst(Operand(e, level, full), op);
    } else {
      PrintHead(e, full, op);
    }
  }

  lemma {:induction false} PrintHead(e: ConditionExpr, full: bool, op: string)
    requires ValidExpr(e) && IsOp(op)
    ensures HeadDiffers(Print(e, full), op)
    decreases e, 0
  {
    match e {
      case AnyOfThem => HeadKeyword(" of them", op); assert "any" + " of them" == "any of them";
      case AllOfThem => HeadKeyword(" of them", op); assert "all" + " of them" == "all of them";
      case And(left, right) =>
        OperandHead(left, 1, full, op);
        HeadExtends(Operand(left, 1, full), AND_OP, Operand(right, 1, full), op);
      case Or(left, right) =>
        OperandHead(left, 0, full, op);
        HeadExtends(Operand(left, 0, full), OR_OP, Operand(right, 0, full), op);
      case _ => HeadFirst(Print(e, full), op);
    }
  }

  // Every text is balanced, so inside parentheses nothing is found.
  lemma {:induction false} PrintDeep(e: ConditionExpr, full: bool, op: string, depth: nat)
    requires ValidExpr(e) && depth > 0
    ensures Scan(Print(e, full), op, depth) == Some(depth)
    decreases e, 0
  {
    match e {
      case Not(inner) =>
        OperandDeep(inner, 2, full, op, depth);
        ScanDeep("not ", op, depth);
        ScanConcat("not ", Operand(inner, 2, full), op, depth);
      case And(left, right) =>
        OperandDeep(left, 1, full, op, depth);
        OperandDeep(right, 1, full, op, depth);
        DeepPair(Operand(left, 1, full), AND_OP, Operand(right, 1, full), op, depth);
      case Or(left, right) =>
        OperandDeep(left, 0, full, op, depth);
        OperandDeep(right, 0, full, op, depth);
        DeepPair(Operand(left, 0, full), OR_OP, Operand(right, 0, full), op, depth);
      case _ => ScanDeep(Print(e, full), op, depth);
    }
  }

  lemma DeepPair(left: string, sep: string, right: string, op: string, depth: nat)
    requires depth > 0 && NoParens(sep) && Scan(left, op, depth) == Some(depth) && Scan(right, op, depth) == Some(depth)
    ensures Scan(left + sep + right, op, depth) == Some(depth)
  {
    ScanDeep(sep, op, depth);
    ScanConcat(left, sep, op, depth);
    ScanConcat(left + sep, right, op, depth);
  }

  lemma {:induction false} OperandDeep(e: ConditionExpr, level: nat, full: bool, op: string, depth: nat)
    requires ValidExpr(e) && depth > 0
    ensures Scan(Operand(e, level, full), op, depth) == Some(depth)
    decreases e, 1
  {
    PrintDeep(e, full, op, depth);
    if full || Precedence(e) < level {
      PrintDeep(e, full, op, depth + 1);
      ScanParens(Print(e, full), op, depth);
    }
  }

  // At the top level an operand of `and` holds no `or`, and an operand of `not` neither operator.
  lemma {:induction false} PrintScan(e: ConditionExpr, full: bool, op: string)
    requires ValidExpr(e) && IsOp(op) && (Precedence(e) == 2 || (Precedence(e) == 1 && op == OR_OP))
    ensures Scan(Print(e, full), op, 0) == Some(0)
    decreases e, 0
  {
    match e {
      case StringRef(name) => ScanWord(name, op, 0);
      case AnyOfThem => ScanKeyword("any", op); assert "any" + " of them" == "any of them";
      case AllOfThem => ScanKeyword("all", op); assert "all" + " of them" == "all of them";
      case Boolean(b) => ScanWord(Print(e, full), op, 0);
      case Not(inner) =>
        var x := Operand(inner, 2, full);
        OperandScan(inner, 2, full, op);
        OperandHead(inner, 2, full, op);
        ScanWords("not", x, op, 0);
        assert "not" + " " + x == "not " + x;
      case And(left, right) =>
        var x, y := Operand(left, 1, full), Operand(right, 1, full);
        OperandScan(left, 1, full, op);
        OperandScan(right, 1, full, op);
        OperandHead(right, 1, full, op);
        AcrossAnd(x, y);
    }
  }

  lemma {:induction false} OperandScan(e: ConditionExpr, level: nat, full: bool, op: string)
    requires ValidExpr(e) && IsOp(op)
             && (level == 2 || (level == 1 && op == OR_OP) || full || Precedence(e) == 2
                 || (Precedence(e) == 1 && op == OR_OP))
    ensures Scan(Operand(e, level, full), op, 0) == Some(0)
    decreases e, 1
  {
    if full || Precedence(e) < level {
      PrintDeep(e, full, op, 1);
      ScanParens(Print(e, full), op, 0);
    } else {
      PrintScan(e, full, op);
    }
  }

  lemma ScanKeyword(word: string, op: string)
    requires (word == "any" || word == "all") && IsOp(op)
    ensures Scan(word + " of them", op, 0) == Some(0)
  {
    hide Scan, HeadDiffers;
    ScanWord("them", op, 0);
    HeadFirst("them", op);
    ScanWords("of", "them", op, 0);
    OfDiffers(op);
    ScanWords(word, "of them", op, 0);
    assert "of" + " " + "them" == "of them" && word + " " + "of them" == word + " of them";
  }

  lemma OfDiffers(op: string)
    requires IsOp(op)
    ensures HeadDiffers("of them", op)
  {
    var s := "of them";
    assert (" " + s)[1..] == s;
    assert s[1..][0] == 'f' && s[0] == 'o';
    if op == OR_OP {
      assert op[1..][1..] == "r ";
      assert Differs(s[1..], op[1..][1..]);
    }
    assert op[1..] != [] && Differs(s, op[1..]);
  }

  // Nothing like ` or ` shows up across ` and `.
  lemma AcrossAnd(x: string, y: string)
    requires Scan(x, OR_OP, 0) == Some(0) && Scan(y, OR_OP, 0) == Some(0) && HeadDiffers(y, OR_OP)
    ensures Scan(x + AND_OP + y, OR_OP, 0) == Some(0)
  {
    ScanWords("and", y, OR_OP, 0);
    var rest := "and" + " " + y;
    assert HeadDiffers(rest, OR_OP) by {
      var t := " " + rest;
      assert t[1..] == rest && OR_OP[1..] == "or " && rest[0] == 'a';
      assert Differs(rest, OR_OP[1..]);
    }
    ScanSpace(rest, OR_OP, 0);
    ScanConcat(x, " " + rest, OR_OP, 0);
    assert x + AND_OP + y == x + (" " + rest);
  }

  /* One step of the parser on each kind of text */

  predicate IsKeyword(s: string) {
    EqIgnoreCase(s, "any of them") || EqIgnoreCase(s, "all of them") || EqIgnoreCase(s, "true")
      || EqIgnoreCase(s, "false")
  }

  // No keyword holds an operator.
  lemma OperatorNotKeyword(s: string, pos: nat, op: string)
    requires IsOp(op) && pos + |op| <= |s| && s[pos..pos + |op|] == op
    ensures !IsKeyword(s)
  {
    var w := s[pos..pos + |op|];
    assert w[0] == s[pos] && w[1] == s[pos + 1] && w[2] == s[pos + 2];
    assert Lower(s[pos]) == ' ' && Lower(s[pos + 1]) in {'o', 'a'}
           && (Lower(s[pos + 1]) == 'o' ==> Lower(s[pos + 2]) == 'r');
    if EqIgnoreCase(s, "any of them") {
      KeywordSpaces("any of them", pos, op);
    } else if EqIgnoreCase(s, "all of them") {
      KeywordSpaces("all of them", pos, op);
    }
  }

  lemma KeywordSpaces(k: string, pos: nat, op: string)
    requires (k == "any of them" || k == "all of them") && pos + 2 < |k|
    ensures Lower(k[pos]) == ' ' ==> Lower(k[pos + 1]) == 't' || (Lower(k[pos + 1]) == 'o' && Lower(k[pos + 2]) == 'f')
  {
    if pos == 3 {
    } else if pos == 6 {
    } else {
      assert pos in {0, 1, 2, 4, 5, 7, 8};
    }
  }

  lemma FirstNotKeyword(s: string)
    requires s != [] && s[0] in {'(', '$', 'n'}
    ensures !IsKeyword(s)
  {
    assert Lower(s[0]) == s[0];
    assert Lower("any of them"[0]) == 'a' && Lower("all of them"[0]) == 'a' && Lower("true"[0]) == 't'
           && Lower("false"[0]) == 'f';
  }

  lemma SolidAround(x: string, op: string, y: string)
    requires Solid(x) && Solid(y)
    ensures Solid(x + op + y)
  {
  }

  // The first operator after text that holds none is where that text ends.
  lemma FindAfter(x: string, op: string, y: string)
    requires IsOp(op) && Scan(x, op, 0) == Some(0)
    ensures FindOp(x + op + y, op, 0) == Some(|x|)
  {
    hide Scan;
    assert (op + y)[..|op|] == op;
    assert FindOp(op + y, op, 0) == Some(0);
    ScanThenFind(x, op + y, op, 0);
    assert x + op + y == x + (op + y);
  }

  lemma ParseOr(x: string, y: string)
    requires Solid(x) && Solid(y) && Scan(x, OR_OP, 0) == Some(0)
    ensures ParseCondition(x + OR_OP + y) == Or(ParseCondition(x), ParseCondition(y))
  {
    hide FindOp, Trim, Scan, EqIgnoreCase, Solid;
    var s := x + OR_OP + y;
    SolidAround(x, OR_OP, y);
    SolidTrim(s);
    assert s[|x|..|x| + 4] == OR_OP;
    OperatorNotKeyword(s, |x|, OR_OP);
    FindAfter(x, OR_OP, y);
    assert s[..|x|] == x && s[|x| + 4..] == y;
  }

  lemma ParseAnd(x: string, y: string)
    requires Solid(x) && Solid(y) && Scan(x, AND_OP, 0) == Some(0) && Scan(x + AND_OP + y, OR_OP, 0) == Some(0)
    ensures ParseCondition(x + AND_OP + y) == And(ParseCondition(x), ParseCondition(y))
  {
    hide FindOp, Trim, Scan, EqIgnoreCase, Solid;
    var s := x + AND_OP + y;
    SolidAround(x, AND_OP, y);
    SolidTrim(s);
    assert s[|x|..|x| + 5] == AND_OP;
    OperatorNotKeyword(s, |x|, AND_OP);
    ScanFindsNothing(s, OR_OP);
    FindAfter(x, AND_OP, y);
    assert s[..|x|] == x && s[|x| + 5..] == y;
  }

  // `s` holds no operator at the top level.
  predicate Closed(s: string) {
    Scan(s, OR_OP, 0) == Some(0) && Scan(s, AND_OP, 0) == Some(0)
  }

  lemma ParseNot(x: string)
    requires Solid(x) && Closed("not " + x)
    ensures ParseCondition("not " + x) == Not(ParseCondition(x))
  {
    var s := "not " + x;
    assert Solid(s);
    SolidTrim(s);
    SolidTrim(x);
    FirstNotKeyword(s);
    ScanFindsNothing(s, OR_OP);
    ScanFindsNothing(s, AND_OP);
    assert s[4..] == x && "not " <= s;
    hide FindOp, Trim;
  }

  lemma ParseParens(x: string)
    requires Closed("(" + x + ")")
    ensures ParseCondition("(" + x + ")") == ParseCondition(x)
  {
    var s := "(" + x + ")";
    assert Solid(s);
    SolidTrim(s);
    FirstNotKeyword(s);
    ScanFindsNothing(s, OR_OP);
    ScanFindsNothing(s, AND_OP);
    assert s[1..|s| - 1] == x;
    assert !("not " <= s) by {
      assert s[0] != "not "[0];
    }
    hide FindOp, Trim;
  }

  lemma ParseAtom(e: ConditionExpr, full: bool)
    requires ValidExpr(e) && (e.StringRef? || e.AnyOfThem? || e.AllOfThem? || e.Boolean?)
    ensures ParseCondition(Print(e, full)) == e
  {
    var s := Print(e, full);
    PrintSolid(e, full);
    SolidTrim(s);
    if e.StringRef? {
      FirstNotKeyword(s);
      PrintScan(e, full, OR_OP);
      PrintScan(e, full, AND_OP);
      ScanFindsNothing(s, OR_OP);
      ScanFindsNothing(s, AND_OP);
      assert !("not " <= s) by {
        assert s[0] != "not "[0];
      }
    } else {
      assert EqIgnoreCase(s, s);
      assert |"any of them"| == |"all of them"| == 11 && Lower("any of them"[1]) != Lower("all of them"[1]);
    }
  }

  /* Parsing undoes printing */

  /** Parsing the fully parenthesised text of any condition gives that condition. */
  lemma {:induction false} ParseUndoesFullPrint(e: ConditionExpr)
    requires ValidExpr(e)
    ensures ParseCondition(Print(e, true)) == e
    ensures forall level: nat :: ParseCondition(Operand(e, level, true)) == e
    decreases e
  {
    OperandsClosed(e, true);
    match e {
      case Not(x) =>
        ParseUndoesFullPrint(x);
        ParseNotOperand(x, true);
      case And(x, y) =>
        ParseUndoesFullPrint(x);
        ParseUndoesFullPrint(y);
        ParseAndOperands(x, Operand(y, 1, true), true, y);
      case Or(x, y) =>
        ParseUndoesFullPrint(x);
        ParseUndoesFullPrint(y);
        OperandSolid(x, 0, true);
        OperandSolid(y, 0, true);
        OperandScan(x, 0, true, OR_OP);
        ParseOr(Operand(x, 0, true), Operand(y, 0, true));
      case _ => ParseAtom(e, true);
    }
    ParseParens(Print(e, true));
  }

  // Parenthesised text holds no operator at the top level.
  lemma OperandsClosed(e: ConditionExpr, full: bool)
    requires ValidExpr(e)
    ensures Closed("(" + Print(e, full) + ")")
  {
    PrintDeep(e, full, OR_OP, 1);
    PrintDeep(e, full, AND_OP, 1);
    ScanParens(Print(e, full), OR_OP, 0);
    ScanParens(Print(e, full), AND_OP, 0);
  }

  lemma ParseNotOperand(x: ConditionExpr, full: bool)
    requires ValidExpr(x)
    ensures ParseCondition(Print(Not(x), full)) == Not(ParseCondition(Operand(x, 2, full)))
  {
    OperandSolid(x, 2, full);
    PrintScan(Not(x), full, OR_OP);
    PrintScan(Not(x), full, AND_OP);
    ParseNot(Operand(x, 2, full));
  }

  lemma ParseAndOperands(x: ConditionExpr, y: string, full: bool, ye: ConditionExpr)
    requires ValidExpr(x) && (full || Precedence(x) != 1) && ValidExpr(ye)
    requires y == Operand(ye, 1, full) || (Solid(y) && Scan(y, OR_OP, 0) == Some(0) && HeadDiffers(y, OR_OP))
    ensures ParseCondition(Operand(x, 1, full) + AND_OP + y)
            == And(ParseCondition(Operand(x, 1, full)), ParseCondition(y))
  {
    OperandSolid(x, 1, full);
    OperandScan(x, 1, full, OR_OP);
    if full || Precedence(x) == 0 {
      OperandsClosed(x, full);
    } else {
      OperandScan(x, 1, full, AND_OP);
    }
    if y == Operand(ye, 1, full) {
      OperandSolid(ye, 1, full);
      OperandScan(ye, 1, full, OR_OP);
      OperandHead(ye, 1, full, OR_OP);
    }
    AcrossAnd(Operand(x, 1, full), y);
    ParseAnd(Operand(x, 1, full), y);
  }

  /* Chains come back nested to the right */

  // `x or rest`, with the chain that `x` is regrouped to the right; `Join(true, ..)` does the same for `and`.
  function Join(conj: bool, x: ConditionExpr, rest: ConditionExpr): ConditionExpr
    decreases x, 1
  {
    if !conj && x.Or? then Join(false, x.left, Join(false, x.right, rest))
    else if conj && x.And? then Join(true, x.left, Join(true, x.right, rest))
    else if conj then And(RightNested(x), rest)
    else Or(RightNested(x), rest)
  }

  // Every chain of one operator regrouped to the right.
  function RightNested(e: ConditionExpr): ConditionExpr
    decreases e, 0
  {
    match e
    case Not(inner) => Not(RightNested(inner))
    case And(left, right) => Join(true, left, RightNested(right))
    case Or(left, right) => Join(false, left, RightNested(right))
    case _ => e
  }

  // No `or` is the left operand of an `or`, and no `and` that of an `and`.
  predicate RightChained(e: ConditionExpr) {
    match e
    case Not(inner) => RightChained(inner)
    case And(left, right) => !left.And? && RightChained(left) && RightChained(right)
    case Or(left, right) => !left.Or? && RightChained(left) && RightChained(right)
    case _ => true
  }

  /** Parsing the minimally parenthesised text gives the condition with its chains nested to the right. */
  lemma {:induction false} ParseNestsRight(e: ConditionExpr)
    requires ValidExpr(e)
    ensures ParseCondition(Print(e, false)) == RightNested(e)
    ensures forall level: nat :: ParseCondition(Operand(e, level, false)) == RightNested(e)
    decreases e, 0
  {
    hide Scan, Solid, HeadDiffers, ParseCondition, Join;
    OperandsClosed(e, false);
    ParseParens(Print(e, false));
    match e {
      case Not(x) =>
        ParseNestsRight(x);
        ParseNotOperand(x, false);
      case And(x, y) =>
        ParseNestsRight(y);
        OperandSolid(y, 1, false);
        OperandScan(y, 1, false, OR_OP);
        OperandHead(y, 1, false, OR_OP);
        SplitAnd(x, Operand(y, 1, false));
      case Or(x, y) =>
        ParseNestsRight(y);
        OperandSolid(y, 0, false);
        SplitOr(x, Operand(y, 0, false));
      case _ => ParseAtom(e, false);
    }
  }

  lemma SolidJoin(x: string, sep: string, y: string)
    requires Solid(x) && Solid(y)
    ensures Solid(x + sep + y)
  {
  }

  // Both chains of one operator, regrouped.
  lemma ChainOperands(e: ConditionExpr, rest: string)
    ensures e.Or? ==> Operand(e, 0, false) + OR_OP + rest
                      == Operand(e.left, 0, false) + OR_OP + (Operand(e.right, 0, false) + OR_OP + rest)
    ensures e.And? ==> Operand(e, 1, false) + AND_OP + rest
                       == Operand(e.left, 1, false) + AND_OP + (Operand(e.right, 1, false) + AND_OP + rest)
  {
    if e.Or? {
      var x, y := Operand(e.left, 0, false), Operand(e.right, 0, false);
      assert Operand(e, 0, false) == x + OR_OP + y;
      hide Operand;
      assert x + OR_OP + (y + OR_OP + rest) == x + OR_OP + y + OR_OP + rest;
    } else if e.And? {
      var x, y := Operand(e.left, 1, false), Operand(e.right, 1, false);
      assert Operand(e, 1, false) == x + AND_OP + y;
      hide Operand;
      assert x + AND_OP + (y + AND_OP + rest) == x + AND_OP + y + AND_OP + rest;
    }
  }

  // A disjunction, then `or` and more text: splitting at the first `or` regroups the chain to the right.
  lemma {:induction false} SplitOr(e: ConditionExpr, rest: string)
    requires ValidExpr(e) && Solid(rest)
    ensures ParseCondition(Operand(e, 0, false) + OR_OP + rest) == Join(false, e, ParseCondition(rest))
    decreases e, 1
  {
    hide Operand, Print, Scan, Solid, ParseCondition, RightNested;
    if e.Or? {
      var y := Operand(e.right, 0, false);
      OperandSolid(e.right, 0, false);
      SolidJoin(y, OR_OP, rest);
      SplitOr(e.right, rest);
      SplitOr(e.left, y + OR_OP + rest);
      ChainOperands(e, rest);
    } else {
      ParseNestsRight(e);
      OperandSolid(e, 0, false);
      OperandScan(e, 0, false, OR_OP);
      ParseOr(Operand(e, 0, false), rest);
    }
  }

  lemma {:induction false} SplitAnd(e: ConditionExpr, rest: string)
    requires ValidExpr(e) && Solid(rest) && Scan(rest, OR_OP, 0) == Some(0) && HeadDiffers(rest, OR_OP)
    ensures ParseCondition(Operand(e, 1, false) + AND_OP + rest) == Join(true, e, ParseCondition(rest))
    decreases e, 1
  {
    hide Operand, Print, Scan, Solid, HeadDiffers, ParseCondition, RightNested;
    if e.And? {
      var y := Operand(e.right, 1, false);
      OperandSolid(e.right, 1, false);
      OperandScan(e.right, 1, false, OR_OP);
      OperandHead(e.right, 1, false, OR_OP);
      SolidJoin(y, AND_OP, rest);
      AcrossAnd(y, rest);
      HeadExtends(y, AND_OP, rest, OR_OP);
      SplitAnd(e.right, rest);
      SplitAnd(e.left, y + AND_OP + rest);
      ChainOperands(e, rest);
    } else {
      ParseNestsRight(e);
      ParseAndOperands(e, rest, false, e);
    }
  }

  // Regrouping keeps the meaning.
  lemma {:induction false} JoinKeepsMeaning(conj: bool, x: ConditionExpr, rest: ConditionExpr, m: Matches)
    ensures Evaluate(Join(conj, x, rest), m)
            == if conj then Evaluate(x, m) && Evaluate(rest, m) else Evaluate(x, m) || Evaluate(rest, m)
    decreases x, 1
  {
    hide RightNested;
    if !conj && x.Or? {
      JoinKeepsMeaning(false, x.right, rest, m);
      JoinKeepsMeaning(false, x.left, Join(false, x.right, rest), m);
    } else if conj && x.And? {
      JoinKeepsMeaning(true, x.right, rest, m);
      JoinKeepsMeaning(true, x.left, Join(true, x.right, rest), m);
    } else {
      NestingKeepsMeaning(x, m);
    }
  }

  lemma {:induction false} NestingKeepsMeaning(e: ConditionExpr, m: Matches)
    ensures Evaluate(RightNested(e), m) == Evaluate(e, m)
    decreases e, 0
  {
    hide Join;
    match e {
      case Not(x) => NestingKeepsMeaning(x, m);
      case And(x, y) =>
        NestingKeepsMeaning(y, m);
        JoinKeepsMeaning(true, x, RightNested(y), m);
      case Or(x, y) =>
        NestingKeepsMeaning(y, m);
        JoinKeepsMeaning(false, x, RightNested(y), m);
      case _ =>
    }
  }

  /** So parsing the minimally parenthesised text gives a condition with the same value on every match map. */
  lemma ParseKeepsMeaning(e: ConditionExpr, m: Matches)
    requires ValidExpr(e)
    ensures Evaluate(ParseCondition(Print(e, false)), m) == Evaluate(e, m)
    ensures forall level: nat :: Evaluate(ParseCondition(Operand(e, level, false)), m) == Evaluate(e, m)
  {
    hide ParseCondition, Evaluate, Print, Operand;
    ParseNestsRight(e);
    NestingKeepsMeaning(e, m);
  }

  // A joined chain never has its own operator on the left.
  lemma {:induction false} JoinLeft(conj: bool, x: ConditionExpr, rest: ConditionExpr)
    ensures var j := Join(conj, x, rest);
            if conj then j.And? && !j.left.And? else j.Or? && !j.left.Or?
    decreases x, 1
  {
    if !conj && x.Or? {
      JoinLeft(false, x.left, Join(false, x.right, rest));
    } else if conj && x.And? {
      JoinLeft(true, x.left, Join(true, x.right, rest));
    } else {
      NestedKind(x);
    }
  }

  lemma {:induction false} NestedKind(e: ConditionExpr)
    ensures (RightNested(e).And? <==> e.And?) && (RightNested(e).Or? <==> e.Or?)
    decreases e, 0
  {
    if e.And? {
      JoinLeft(true, e.left, RightNested(e.right));
    } else if e.Or? {
      JoinLeft(false, e.left, RightNested(e.right));
    }
  }

  lemma {:induction false} NestedIff(e: ConditionExpr)
    ensures RightNested(e) == e <==> RightChained(e)
  {
    match e {
      case Not(x) => NestedIff(x);
      case And(x, y) =>
        NestedIff(x);
        NestedIff(y);
        JoinLeft(true, x, RightNested(y));
      case Or(x, y) =>
        NestedIff(x);
        NestedIff(y);
        JoinLeft(false, x, RightNested(y));
      case _ =>
    }
  }

  /**
   It is the condition itself if and only if no `or` is the left operand of an `or`, nor an `and` that of an `and`.
   */
  lemma ParseUndoesPrintIff(e: ConditionExpr)
    requires ValidExpr(e)
    ensures ParseCondition(Print(e, false)) == e <==> RightChained(e)
  {
    hide ParseCondition, Print, RightNested, RightChained;
    ParseNestsRight(e);
    NestedIff(e);
  }

  /* White space and letter case */

  predicate Blank(s: string) {
    forall i | 0 <= i < |s| :: s[i] as int in {9, 10, 11, 12, 13, 32}
  }

  lemma {:induction false} TrimStartSkips(pre: string, s: string)
    requires Blank(pre) && (s != [] ==> !IsSpace(s[0]))
    ensures TrimStart(pre + s) == s
  {
    if pre == [] {
      assert pre + s == s;
    } else {
      assert (pre + s)[1..] == pre[1..] + s;
      TrimStartSkips(pre[1..], s);
    }
  }

  lemma {:induction false} TrimEndSkips(s: string, post: string)
    requires Blank(post) && (s != [] ==> !IsSpace(s[|s| - 1]))
    ensures TrimEnd(s + post) == s
    decreases |post|
  {
    if post == [] {
      assert s + post == s;
    } else {
      var n := |post| - 1;
      assert (s + post)[..|s + post| - 1] == s + post[..n];
      TrimEndSkips(s, post[..n]);
    }
  }

  /** White space around a condition changes nothing. */
  lemma PaddedParse(pre: string, s: string, post: string)
    requires Blank(pre) && Solid(s) && Blank(post)
    ensures ParseCondition(pre + s + post) == ParseCondition(s)
  {
    hide ParseCondition, Trim, Solid;
    SolidTrim(s);
    TrimPadded(pre, s, post);
    SameTrim(pre + s + post, s);
  }

  lemma TrimPadded(pre: string, s: string, post: string)
    requires Blank(pre) && Solid(s) && Blank(post)
    ensures Trim(pre + s + post) == s
  {
    hide TrimStart, TrimEnd;
    TrimStartSkips(pre, s + post);
    TrimEndSkips(s, post);
    assert pre + s + post == pre + (s + post);
  }

  lemma SameTrim(a: string, b: string)
    requires Trim(a) == Trim(b)
    ensures ParseCondition(a) == ParseCondition(b)
  {
    hide Trim, FindOp, EqIgnoreCase;
  }

  /** A condition of white space alone is always true. */
  lemma EmptyParse(s: string, m: Matches)
    requires Blank(s)
    ensures Evaluate(ParseCondition(s), m)
  {
    hide FindOp, EqIgnoreCase;
    TrimStartSkips(s, []);
    assert s + [] == s;
  }

  // The lower-case text `k`, with any of its letters in upper case.
  predicate AnyCase(s: string, k: string) {
    |s| == |k| && forall i | 0 <= i < |s| :: s[i] == k[i] || ('a' <= k[i] <= 'z' && s[i] as int + 32 == k[i] as int)
  }

  lemma AnyCaseEqual(s: string, k: string)
    requires AnyCase(s, k) && forall i | 0 <= i < |k| :: !('A' <= k[i] <= 'Z')
    ensures EqIgnoreCase(s, k)
  {
  }

  /** Keywords are recognised in any case. */
  lemma KeywordsAnyCase(s: string)
    ensures AnyCase(s, "any of them") ==> ParseCondition(s) == AnyOfThem
    ensures AnyCase(s, "all of them") ==> ParseCondition(s) == AllOfThem
    ensures AnyCase(s, "true") ==> ParseCondition(s) == Boolean(true)
    ensures AnyCase(s, "false") ==> ParseCondition(s) == Boolean(false)
  {
    hide FindOp, Trim, TrimStart, TrimEnd;
    if AnyCase(s, "any of them") {
      AnyCaseEqual(s, "any of them");
    }
    if AnyCase(s, "all of them") {
      AnyCaseEqual(s, "all of them");
      assert s[1] == 'l' || s[1] == 'L';
    }
    if AnyCase(s, "true") {
      AnyCaseEqual(s, "true");
    }
    if AnyCase(s, "false") {
      AnyCaseEqual(s, "false");
    }
    if AnyCase(s, "any of them") || AnyCase(s, "all of them") || AnyCase(s, "true") || AnyCase(s, "false") {
      assert Solid(s);
      SolidTrim(s);
    }
  }

  /** And so are operators: behind text that holds none, `or` and `and` are found in any case. */
  lemma OperatorsAnyCase(x: string, written: string, op: string, y: string)
    requires IsOp(op) && AnyCase(written, op) && Scan(x, op, 0) == Some(0)
    ensures FindOp(x + written + y, op, 0) == Some(|x|)
  {
    hide Scan;
    AnyCaseEqual(written, op);
    assert (written + y)[..|op|] == written && written[0] == ' ';
    assert FindOp(written + y, op, 0) == Some(0);
    ScanThenFind(x, written + y, op, 0);
    assert x + written + y == x + (written + y);
  }
}
