/** The two interpreters of flex rules: CStudioHdr::RunFlexRulesOld and RunFlexRulesNew. */
module FlexRules {
  import opened Options

  const STACK_SIZE: nat := 32

  /** mstudioflexop_t. Other stands for the opcodes neither interpreter acts on. */
  datatype FlexOp =
    | Add | Sub | Mul | Div | Neg | Max | Min
    | Const(value: real) | Fetch1(index: int) | Fetch2(index: int)
    | Combo(index: int) | Dominate(index: int)
    | TwoWay0(index: int) | TwoWay1(index: int) | NWay(index: int)
    | LowerEyelid(index: int) | UpperEyelid(index: int)
    | Other(op: int)

  /** The interpreters disagree about one opcode. */
  datatype Dialect = Old | New

  datatype Rule = Rule(flex: nat, ops: seq<FlexOp>)

  datatype Controller = Controller(localToGlobal: nat, min: real, max: real)

  /** The parts of a studio header the rules use. */
  datatype Header = Header(numFlexDesc: nat, controllers: seq<Controller>, rules: seq<Rule>)

  /** What a rule can read: the header, the controller values, and the results so far. */
  datatype Inputs = Inputs(hdr: Header, src: seq<real>, dest: seq<real>) {
    /** The value of a controller, if there is such a controller with a value. */
    predicate Has(c: int) {
      0 <= c < |hdr.controllers| && hdr.controllers[c].localToGlobal < |src|
    }

    function Value(c: int): real
      requires Has(c)
    {
      src[hdr.controllers[c].localToGlobal]
    }

    function Scaled(c: int, lo: real, hi: real): real
      requires Has(c)
    {
      RemapValClamped(Value(c), hdr.controllers[c].min, hdr.controllers[c].max, lo, hi)
    }
  }

  function RemapValClamped(val: real, a: real, b: real, c: real, d: real): real {
    if a == b then (if val - b >= 0.0 then d else c)
    else
      var t := (val - a) / (b - a);
      c + (d - c) * (if t < 0.0 then 0.0 else if t > 1.0 then 1.0 else t)
  }

  /** (int)r */
  function Truncate(r: real): int {
    if r >= 0.0 then r.Floor else -(-r).Floor
  }

  function Times(a: real, b: real): real { a * b }

  function Suppressed(v: real, p: real): real { v * (1.0 - p) }

  function Larger(a: real, b: real): real { if a > b then a else b }

  function Smaller(a: real, b: real): real { if a < b then a else b }

  function Quotient(a: real, b: real): real {
    if b > 0.0001 then a / b else 0.0
  }

  /** The filter of STUDIO_NWAY. */
  function Ramp(v: real, x: real, y: real, z: real, w: real): real {
    if v <= x || v >= w then 0.0
    else if v < y then RemapValClamped(v, x, y, 0.0, 1.0)
    else if v > z then RemapValClamped(v, z, w, 1.0, 0.0)
    else 1.0
  }

  function LowerLid(eyeUpDown: real, closeLidV: real, closeLid: real): real {
    if eyeUpDown > 0.0 then (1.0 - eyeUpDown) * (1.0 - closeLidV) * closeLid else (1.0 - closeLidV) * closeLid
  }

  function UpperLid(eyeUpDown: real, closeLidV: real, closeLid: real): real {
    if eyeUpDown < 0.0 then (1.0 + eyeUpDown) * closeLidV * closeLid else closeLidV * closeLid
  }

  function Product(s: seq<real>): real {
    if s == [] then 1.0 else Product(s[..|s| - 1]) * s[|s| - 1]
  }

  // ----- what a rule means: a stack of numbers, top last -----

  /** The stack before the first opcode: the new interpreter's register, which is zero, is its top. */
  function Bottom(d: Dialect): seq<real> {
    if d.Old? then [] else [0.0]
  }

  /** How many numbers there is room for, the register included. */
  function Room(d: Dialect): nat {
    STACK_SIZE + |Bottom(d)|
  }

  function Push(d: Dialect, st: seq<real>, v: real): Option<seq<real>> {
    if |st| < Room(d) then Some(st + [v]) else None
  }

  /** The stack with its top n entries replaced by v. */
  function Replace(st: seq<real>, n: nat, v: real): (r: seq<real>)
    requires n <= |st|
    ensures |r| == |st| - n + 1
  {
    st[..|st| - n] + [v]
  }

  /** The entry n places below the top. */
  function Top(st: seq<real>, n: nat): real
    requires n < |st|
  {
    st[|st| - 1 - n]
  }

  predicate EyelidInputs(inp: Inputs, st: seq<real>, index: int) {
    && |st| >= 3 && inp.Has(index) && inp.Has(Truncate(Top(st, 0)))
    && (Truncate(Top(st, 1)) >= 0 ==> inp.Has(Truncate(Top(st, 1))))
    && (Truncate(Top(st, 2)) >= 0 ==> inp.Has(Truncate(Top(st, 2))))
  }

  function EyeUpDown(inp: Inputs, c: int): real
    requires c >= 0 ==> inp.Has(c)
  {
    if c >= 0 then inp.Scaled(c, -1.0, 1.0) else 0.0
  }

  /** What STUDIO_DOMINATE leaves on top: the old interpreter suppresses the value under the top m,
      the new one the top by the m below it. */
  function Dominated(d: Dialect, st: seq<real>, m: nat): real
    requires 1 <= m < |st|
  {
    if d.Old? then Suppressed(Top(st, m), Product(st[|st| - m..]))
    else Suppressed(Top(st, 0), Product(st[|st| - 1 - m..|st| - 1]))
  }

  /** One opcode; None when it would leave the stack or the tables. */
  function Step(d: Dialect, inp: Inputs, op: FlexOp, st: seq<real>): (r: Option<seq<real>>)
    ensures r.Some? && |st| <= Room(d) ==> |r.value| <= Room(d)
    ensures r.Some? && st != [] ==> r.value != []
  {
    match op
    case Add => if |st| < 2 then None else Some(Replace(st, 2, Top(st, 1) + Top(st, 0)))
    case Sub => if |st| < 2 then None else Some(Replace(st, 2, Top(st, 1) - Top(st, 0)))
    case Mul => if |st| < 2 then None else Some(Replace(st, 2, Times(Top(st, 1), Top(st, 0))))
    case Div => if |st| < 2 then None else Some(Replace(st, 2, Quotient(Top(st, 1), Top(st, 0))))
    case Neg => if |st| < 1 then None else Some(Replace(st, 1, -Top(st, 0)))
    case Max => if |st| < 2 then None else Some(Replace(st, 2, Larger(Top(st, 1), Top(st, 0))))
    case Min => if |st| < 2 then None else Some(Replace(st, 2, Smaller(Top(st, 1), Top(st, 0))))
    case Const(v) => Push(d, st, v)
    case Fetch1(c) => if !inp.Has(c) then None else Push(d, st, inp.Value(c))
    case Fetch2(n) => if !(0 <= n < |inp.dest|) then None else Push(d, st, inp.dest[n])
    case Combo(m) => if !(1 <= m <= |st|) then None else Some(Replace(st, m, Product(st[|st| - m..])))
    case Dominate(m) => if !(1 <= m < |st|) then None else Some(Replace(st, m + 1, Dominated(d, st, m)))
    case TwoWay0(c) => if !inp.Has(c) then None else Push(d, st, RemapValClamped(inp.Value(c), -1.0, 0.0, 1.0, 0.0))
    case TwoWay1(c) => if !inp.Has(c) then None else Push(d, st, RemapValClamped(inp.Value(c), 0.0, 1.0, 0.0, 1.0))
    case NWay(c) =>
      if |st| < 5 || !inp.Has(c) || !inp.Has(Truncate(Top(st, 0))) then None
      else
        var v := Ramp(inp.Value(Truncate(Top(st, 0))), Top(st, 4), Top(st, 3), Top(st, 2), Top(st, 1));
        Some(Replace(st, 5, Times(v, inp.Value(c))))
    case LowerEyelid(c) =>
      if !EyelidInputs(inp, st, c) then None
      else Some(Replace(st, 3, LowerLid(EyeUpDown(inp, Truncate(Top(st, 2))), inp.Scaled(c, 0.0, 1.0),
                                        inp.Scaled(Truncate(Top(st, 0)), 0.0, 1.0))))
    case UpperEyelid(c) =>
      if !EyelidInputs(inp, st, c) then None
      else Some(Replace(st, 3, UpperLid(EyeUpDown(inp, Truncate(Top(st, 2))), inp.Scaled(c, 0.0, 1.0),
                                        inp.Scaled(Truncate(Top(st, 0)), 0.0, 1.0))))
    case Other(_) => Some(st)
  }

  function Exec(d: Dialect, inp: Inputs, ops: seq<FlexOp>, st: seq<real>): Option<seq<real>>
    decreases |ops|
  {
    if ops == [] then Some(st)
    else match Step(d, inp, ops[0], st)
      case None => None
      case Some(next) => Exec(d, inp, ops[1..], next)
  }

  /** The value of a rule: the old interpreter takes the lowest number of its stack, which a rule that pushes nothing
      leaves unset, the new one the register. */
  function RuleValue(d: Dialect, inp: Inputs, ops: seq<FlexOp>): Option<real> {
    match Exec(d, inp, ops, Bottom(d))
    case None => None
    case Some(st) => if st == [] then None else Some(if d.Old? then st[0] else Top(st, 0))
  }

  /** All rules from number i on, given the results so far. */
  function RunFrom(d: Dialect, hdr: Header, src: seq<real>, i: nat, dest: seq<real>): (r: Option<seq<real>>)
    ensures r.Some? ==> |r.value| == |dest|
    decreases |hdr.rules| - i
  {
    if i >= |hdr.rules| then Some(dest)
    else
      var rule := hdr.rules[i];
      match RuleValue(d, Inputs(hdr, src, dest), rule.ops)
      case None => None
      case Some(v) => if rule.flex < |dest| then RunFrom(d, hdr, src, i + 1, dest[rule.flex := v]) else None
  }

  function Run(d: Dialect, hdr: Header, src: seq<real>): (r: Option<seq<real>>) {
    RunFrom(d, hdr, src, 0, seq(hdr.numFlexDesc, _ => 0.0))
  }

  // ----- the old interpreter: stack[..k] is the stack -----

  method CombineOld(stack: array<real>, k: nat, m: nat)
    requires 1 <= m <= k <= stack.Length
    modifies stack
    ensures stack[..k - m + 1] == Replace(old(stack[..k]), m, Product(old(stack[k - m..k])))
  {
    var km := k - m;
    var i := km + 1;
    ghost var st := stack[..k];
    ProductOne(st[km..]);
    while i < k
      invariant km + 1 <= i <= k
      invariant stack[km] == Product(st[km..i])
      invariant forall j {:trigger stack[j]} :: 0 <= j < k && j != km ==> stack[j] == st[j]
    {
      ProductSnoc(st, km, i);
      stack[km] := stack[km] * stack[i];
      i := i + 1;
    }
    assert st[km..k] == old(stack[k - m..k]);
  }

  lemma ProductOne(s: seq<real>)
    requires s != []
    ensures Product(s[..1]) == s[0]
  {
    assert s[..1][..0] == [];
  }

  lemma ProductSnoc(s: seq<real>, a: nat, i: nat)
    requires a <= i < |s|
    ensures Product(s[a..i + 1]) == Product(s[a..i]) * s[i]
  {
    assert s[a..i + 1][..i - a] == s[a..i];
  }

  /** stack[k] = v; k++ */
  method PushOld(stack: array<real>, k0: nat, v: real) returns (k: nat)
    requires k0 < stack.Length
    modifies stack
    ensures k == k0 + 1 && stack[..k] == old(stack[..k0]) + [v]
  {
    stack[k0] := v;
    k := k0 + 1;
  }

  /** The top n entries give way to v: stack[k-n] = v; k -= n - 1. */
  method ReplaceOld(stack: array<real>, k0: nat, n: nat, v: real) returns (k: nat)
    requires 1 <= n <= k0 <= stack.Length
    modifies stack
    ensures k == k0 - n + 1 && stack[..k] == Replace(old(stack[..k0]), n, v)
  {
    stack[k0 - n] := v;
    k := k0 - n + 1;
  }

  method DominateOld(stack: array<real>, k0: nat, m: nat) returns (k: nat)
    requires 1 <= m < k0 <= stack.Length
    modifies stack
    ensures k == k0 - m && stack[..k] == Replace(old(stack[..k0]), m + 1, Dominated(Old, old(stack[..k0]), m))
  {
    hide Product, Suppressed;
    var km := k0 - m;
    var dv := stack[km];
    var i := km + 1;
    ghost var st := stack[..k0];
    ProductOne(st[km..]);
    assert st[km..][..1] == st[km..km + 1];
    while i < k0
      invariant km + 1 <= i <= k0 && dv == Product(st[km..i]) && stack[..] == old(stack[..])
    {
      ProductSnoc(st, km, i);
      dv := dv * stack[i];
      i := i + 1;
    }
    assert st[km..k0] == st[|st| - m..];
    assert Top(st, m) == stack[km - 1];
    k := ReplaceOld(stack, k0, m + 1, Suppressed(stack[km - 1], dv));
  }

  lemma Tops(mem: seq<real>, k: nat)
    requires k <= |mem|
    ensures forall n: nat {:trigger Top(mem[..k], n)} :: n < k ==> Top(mem[..k], n) == mem[k - 1 - n]
  {
  }

  /** The switch of RunFlexRulesOld. */
  method OpOld(hdr: Header, src: seq<real>, dest: array<real>, op: FlexOp, stack: array<real>, k0: nat) returns (k: nat)
    requires stack != dest && stack.Length == STACK_SIZE && k0 <= STACK_SIZE
    requires Step(Old, Inputs(hdr, src, dest[..]), op, stack[..k0]).Some?
    modifies stack
    ensures k <= STACK_SIZE && Some(stack[..k]) == Step(Old, Inputs(hdr, src, dest[..]), op, old(stack[..k0]))
  {
    hide RemapValClamped, Product, Truncate, Ramp, LowerLid, UpperLid, Quotient, Dominated, Times, Top, Replace,
         Inputs.Scaled, EyeUpDown;
    var inp := Inputs(hdr, src, dest[..]);
    var n, v := 0, 0.0;
    Tops(stack[..], k0);
    match op {
    case Add => n, v := 2, stack[k0 - 2] + stack[k0 - 1];
    case Sub => n, v := 2, stack[k0 - 2] - stack[k0 - 1];
    case Mul => n, v := 2, Times(stack[k0 - 2], stack[k0 - 1]);
    case Div => n, v := 2, Quotient(stack[k0 - 2], stack[k0 - 1]);
    case Neg => n, v := 1, -stack[k0 - 1];
    case Max => n, v := 2, Larger(stack[k0 - 2], stack[k0 - 1]);
    case Min => n, v := 2, Smaller(stack[k0 - 2], stack[k0 - 1]);
    case Const(c) => v := c;
    case Fetch1(c) => v := src[hdr.controllers[c].localToGlobal];
    case Fetch2(d) => v := dest[d];
    case Combo(m) => CombineOld(stack, k0, m); return k0 - m + 1;
    case Dominate(m) => k := DominateOld(stack, k0, m); return;
    case TwoWay0(c) => v := RemapValClamped(src[hdr.controllers[c].localToGlobal], -1.0, 0.0, 1.0, 0.0);
    case TwoWay1(c) => v := RemapValClamped(src[hdr.controllers[c].localToGlobal], 0.0, 1.0, 0.0, 1.0);
    case NWay(c) =>
      var value := src[hdr.controllers[Truncate(stack[k0 - 1])].localToGlobal];
      value := Ramp(value, stack[k0 - 5], stack[k0 - 4], stack[k0 - 3], stack[k0 - 2]);
      n, v := 5, Times(value, src[hdr.controllers[c].localToGlobal]);
    case LowerEyelid(c) =>
      var closeLidV, closeLid, eyeUpDown := EyelidValues(inp, c, Truncate(stack[k0 - 1]), Truncate(stack[k0 - 2]),
          Truncate(stack[k0 - 3]));
      n, v := 3, LowerLid(eyeUpDown, closeLidV, closeLid);
    case UpperEyelid(c) =>
      var closeLidV, closeLid, eyeUpDown := EyelidValues(inp, c, Truncate(stack[k0 - 1]), Truncate(stack[k0 - 2]),
          Truncate(stack[k0 - 3]));
      n, v := 3, UpperLid(eyeUpDown, closeLidV, closeLid);
    case Other(_) => return k0;
    }
    if n == 0 {
      k := PushOld(stack, k0, v);
    } else {
      k := ReplaceOld(stack, k0, n, v);
    }
  }

  method RunFlexRulesOld(hdr: Header, src: seq<real>, dest: array<real>)
    requires dest.Length == hdr.numFlexDesc && Run(Old, hdr, src).Some?
    modifies dest
    ensures Some(dest[..]) == Run(Old, hdr, src)
  {
    hide Step;
    var i := 0;
    while i < hdr.numFlexDesc
      invariant 0 <= i <= dest.Length && forall j :: 0 <= j < i ==> dest[j] == 0.0
    {
      dest[i] := 0.0;
      i := i + 1;
    }
    assert dest[..] == seq(hdr.numFlexDesc, _ => 0.0);
    i := 0;
    while i < |hdr.rules|
      invariant 0 <= i <= |hdr.rules| && RunFrom(Old, hdr, src, i, dest[..]) == Run(Old, hdr, src)
    {
      var rule := hdr.rules[i];
      RunUnfold(Old, hdr, src, i, dest[..]);
      var stack := new real[STACK_SIZE];
      var k: nat := 0;
      ghost var inp := Inputs(hdr, src, dest[..]);
      assert stack[..k] == [];
      var j := 0;
      while j < |rule.ops|
        invariant 0 <= j <= |rule.ops| && k <= STACK_SIZE && dest[..] == inp.dest
        invariant Exec(Old, inp, rule.ops[j..], stack[..k]) == Exec(Old, inp, rule.ops, [])
      {
        ExecUnfold(Old, inp, rule.ops, j, stack[..k]);
        k := OpOld(hdr, src, dest, rule.ops[j], stack, k);
        j := j + 1;
      }
      ghost var before := dest[..];
      dest[rule.flex] := stack[0];
      assert dest[..] == before[rule.flex := stack[0]];
      i := i + 1;
    }
  }

  lemma RunUnfold(d: Dialect, hdr: Header, src: seq<real>, i: nat, dest: seq<real>)
    requires i < |hdr.rules| && RunFrom(d, hdr, src, i, dest).Some?
    ensures var rule, v := hdr.rules[i], RuleValue(d, Inputs(hdr, src, dest), hdr.rules[i].ops);
            && v.Some? && rule.flex < |dest|
            && RunFrom(d, hdr, src, i + 1, dest[rule.flex := v.value]) == RunFrom(d, hdr, src, i, dest)
    ensures hdr.rules[i].ops[0..] == hdr.rules[i].ops
  {
    hide RuleValue;
  }

  lemma ExecUnfold(d: Dialect, inp: Inputs, ops: seq<FlexOp>, j: nat, st: seq<real>)
    requires j < |ops| && Exec(d, inp, ops[j..], st).Some?
    ensures Step(d, inp, ops[j], st).Some?
    ensures Exec(d, inp, ops[j + 1..], Step(d, inp, ops[j], st).value) == Exec(d, inp, ops[j..], st)
  {
    hide Step;
    assert ops[j..][0] == ops[j] && ops[j..][1..] == ops[j + 1..];
  }

  /** What both eyelid opcodes fetch; the blink value is fetched too, but never used. */
  method EyelidValues(inp: Inputs, closeLidVIndex: int, closeLidIndex: int, blinkIndex: int, eyeUpDownIndex: int)
    returns (closeLidV: real, closeLid: real, eyeUpDown: real)
    requires inp.Has(closeLidVIndex) && inp.Has(closeLidIndex)
    requires (blinkIndex >= 0 ==> inp.Has(blinkIndex)) && (eyeUpDownIndex >= 0 ==> inp.Has(eyeUpDownIndex))
    ensures closeLidV == inp.Scaled(closeLidVIndex, 0.0, 1.0) && closeLid == inp.Scaled(closeLidIndex, 0.0, 1.0)
    ensures eyeUpDown == EyeUpDown(inp, eyeUpDownIndex)
  {
    closeLidV := inp.Scaled(closeLidVIndex, 0.0, 1.0);
    closeLid := inp.Scaled(closeLidIndex, 0.0, 1.0);
    var blink := 0.0;
    if blinkIndex >= 0 {
      blink := inp.Scaled(blinkIndex, 0.0, 1.0);
    }
    eyeUpDown := 0.0;
    if eyeUpDownIndex >= 0 {
      eyeUpDown := inp.Scaled(eyeUpDownIndex, -1.0, 1.0);
    }
  }

  // ----- the new interpreter: the top in a register, the rest growing down -----

  /** The register holds the top; entry number e below it is at STACK_SIZE - 1 - e, and sp at the last of them. */
  ghost predicate Cached(mem: seq<real>, sp: int, tos: real, st: seq<real>) {
    && |mem| == STACK_SIZE && 1 <= |st| <= Room(New) && sp == Room(New) - |st|
    && tos == Top(st, 0)
    && forall j {:trigger mem[j]} :: sp <= j < STACK_SIZE ==> mem[j] == st[STACK_SIZE - 1 - j]
  }

  lemma CachedPush(mem: seq<real>, sp: int, tos: real, st: seq<real>, v: real)
    requires Cached(mem, sp, tos, st) && |st| < Room(New)
    ensures sp >= 1 && Cached(mem[sp - 1 := tos], sp - 1, v, st + [v])
  {
  }

  lemma CachedReplace(mem: seq<real>, sp: int, tos: real, st: seq<real>, n: nat, v: real)
    requires Cached(mem, sp, tos, st) && 1 <= n <= |st|
    ensures Cached(mem, sp + n - 1, v, Replace(st, n, v))
  {
  }

  lemma CachedAt(mem: seq<real>, sp: int, tos: real, st: seq<real>, i: nat)
    requires Cached(mem, sp, tos, st) && i + 1 < |st|
    ensures |mem| == STACK_SIZE && 0 <= sp + i < STACK_SIZE && mem[sp + i] == Top(st, i + 1)
  {
  }

  lemma {:induction false} ProductCons(s: seq<real>, a: nat)
    requires a < |s|
    ensures Product(s[a..]) == s[a] * Product(s[a + 1..])
    decreases |s|
  {
    var n := |s| - 1;
    if a < n {
      ProductCons(s[..n], a);
      assert s[a..][..n - a] == s[..n][a..];
      assert s[a + 1..][..n - a - 1] == s[..n][a + 1..];
      TimesAssoc(s[a], Product(s[..n][a + 1..]), s[n]);
    } else {
      assert s[a..][..0] == [] && s[a + 1..] == [];
    }
  }

  lemma TimesAssoc(a: real, b: real, c: real)
    ensures a * b * c == a * (b * c)
  {
  }

  /** The loop of STUDIO_COMBO: flTOS times the m - 1 entries below. */
  method CombineNew(stack: array<real>, sp0: nat, tos0: real, m: nat, ghost st: seq<real>) returns (sp: nat, tos: real)
    requires Cached(stack[..], sp0, tos0, st) && 1 <= m <= |st|
    ensures sp == sp0 + m - 1 && tos == Product(st[|st| - m..])
  {
    sp, tos := sp0, tos0;
    var left := m - 1;
    ProductOne(st[|st| - 1..]);
    assert st[|st| - 1..][..1] == st[|st| - 1..];
    while left != 0
      invariant 0 <= left <= m - 1 && sp == sp0 + (m - 1 - left)
      invariant tos == Product(st[|st| - (m - left)..])
    {
      CachedAt(stack[..], sp0, tos0, st, sp - sp0);
      ProductCons(st, |st| - (m - left) - 1);
      tos := tos * stack[sp];
      sp := sp + 1;
      left := left - 1;
    }
  }

  /** The product of the m entries below the top. */
  method MultiplyBelow(stack: array<real>, sp0: nat, tos0: real, m: nat, ghost st: seq<real>)
    returns (sp: nat, dv: real)
    requires Cached(stack[..], sp0, tos0, st) && 1 <= m < |st|
    ensures sp == sp0 + m && dv == Product(st[..|st| - 1][|st| - 1 - m..])
  {
    hide Cached, Product;
    CachedAt(stack[..], sp0, tos0, st, 0);
    ghost var below := st[..|st| - 1];
    dv := stack[sp0];
    sp := sp0 + 1;
    var left := m - 1;
    ProductOne(below[|below| - 1..]);
    assert below[|below| - 1..][..1] == below[|below| - 1..];
    while left != 0
      invariant 0 <= left <= m - 1 && sp == sp0 + (m - left)
      invariant dv == Product(below[|below| - (m - left)..])
    {
      CachedAt(stack[..], sp0, tos0, st, sp - sp0);
      ProductCons(below, |below| - (m - left) - 1);
      dv := dv * stack[sp];
      sp := sp + 1;
      left := left - 1;
    }
  }

  /** STUDIO_DOMINATE: flTOS suppressed by the product of the m entries below it. */
  method DominateNew(stack: array<real>, sp0: nat, tos0: real, m: nat, ghost st: seq<real>) returns (sp: nat, tos: real)
    requires Cached(stack[..], sp0, tos0, st) && 1 <= m < |st|
    ensures sp == sp0 + m && tos == Dominated(New, st, m)
  {
    hide Product, Suppressed;
    var dv;
    sp, dv := MultiplyBelow(stack, sp0, tos0, m, st);
    tos := Suppressed(tos0, dv);
    assert st[..|st| - 1][|st| - 1 - m..] == st[|st| - 1 - m..|st| - 1];
  }

  /** *(--pSP) = flTOS; flTOS = v */
  method PushNew(stack: array<real>, sp0: nat, tos0: real, v: real, ghost st: seq<real>) returns (sp: nat, tos: real)
    requires Cached(stack[..], sp0, tos0, st) && |st| < Room(New)
    modifies stack
    ensures Cached(stack[..], sp, tos, st + [v])
  {
    CachedPush(stack[..], sp0, tos0, st, v);
    stack[sp0 - 1] := tos0;
    sp, tos := sp0 - 1, v;
  }

  lemma TimesCommutes(a: real, b: real)
    ensures Times(a, b) == Times(b, a)
  {
  }

  /** The switch of RunFlexRulesNew. */
  method OpNew(hdr: Header, src: seq<real>, dest: array<real>, op: FlexOp, stack: array<real>, sp0: nat, tos0: real,
               ghost st: seq<real>)
    returns (sp: nat, tos: real)
    requires stack != dest && Cached(stack[..], sp0, tos0, st)
    requires Step(New, Inputs(hdr, src, dest[..]), op, st).Some?
    modifies stack
    ensures Cached(stack[..], sp, tos, Step(New, Inputs(hdr, src, dest[..]), op, st).value)
  {
    hide RemapValClamped, Product, Truncate, Ramp, LowerLid, UpperLid, Quotient, Dominated, Times, Cached, Top, Replace,
         Inputs.Scaled, EyeUpDown;
    var inp := Inputs(hdr, src, dest[..]);
    var n, v := 1, tos0;
    Below(stack[..], sp0, tos0, st);
    match op {
    case Add => n, v := 2, tos0 + stack[sp0];
    case Sub => n, v := 2, stack[sp0] - tos0;
    case Mul => TimesCommutes(stack[sp0], tos0); n, v := 2, Times(tos0, stack[sp0]);
    case Div => n, v := 2, Quotient(stack[sp0], tos0);
    case Neg => v := -tos0;
    case Max => n, v := 2, Larger(tos0, stack[sp0]);
    case Min => n, v := 2, Smaller(tos0, stack[sp0]);
    case Const(c) => sp, tos := PushNew(stack, sp0, tos0, c, st); return;
    case Fetch1(c) => sp, tos := PushNew(stack, sp0, tos0, src[hdr.controllers[c].localToGlobal], st); return;
    case Fetch2(d) => sp, tos := PushNew(stack, sp0, tos0, dest[d], st); return;
    case Combo(m) => sp, tos := CombineNew(stack, sp0, tos0, m, st); n, v := m, tos;
    case Dominate(m) => sp, tos := DominateNew(stack, sp0, tos0, m, st); n, v := m + 1, tos;
    case TwoWay0(c) =>
      sp, tos := PushNew(stack, sp0, tos0, RemapValClamped(src[hdr.controllers[c].localToGlobal], -1.0, 0.0, 1.0, 0.0),
          st);
      return;
    case TwoWay1(c) =>
      sp, tos := PushNew(stack, sp0, tos0, RemapValClamped(src[hdr.controllers[c].localToGlobal], 0.0, 1.0, 0.0, 1.0),
          st);
      return;
    case NWay(c) =>
      var value := src[hdr.controllers[Truncate(tos0)].localToGlobal];
      value := Ramp(value, stack[sp0 + 3], stack[sp0 + 2], stack[sp0 + 1], stack[sp0]);
      n, v := 5, Times(value, src[hdr.controllers[c].localToGlobal]);
    case LowerEyelid(c) =>
      var closeLidV, closeLid, eyeUpDown := EyelidValues(inp, c, Truncate(tos0), Truncate(stack[sp0]),
          Truncate(stack[sp0 + 1]));
      n, v := 3, LowerLid(eyeUpDown, closeLidV, closeLid);
    case UpperEyelid(c) =>
      var closeLidV, closeLid, eyeUpDown := EyelidValues(inp, c, Truncate(tos0), Truncate(stack[sp0]),
          Truncate(stack[sp0 + 1]));
      n, v := 3, UpperLid(eyeUpDown, closeLidV, closeLid);
    case Other(_) => return sp0, tos0;
    }
    CachedReplace(stack[..], sp0, tos0, st, n, v);
    sp, tos := sp0 + n - 1, v;
  }

  /** The cells an opcode may look at. */
  lemma Below(mem: seq<real>, sp: int, tos: real, st: seq<real>)
    requires Cached(mem, sp, tos, st)
    ensures |mem| == STACK_SIZE && 0 <= sp && |st| >= 1 && tos == Top(st, 0)
    ensures |st| >= 2 ==> sp < STACK_SIZE && mem[sp] == Top(st, 1)
    ensures |st| >= 3 ==> sp + 1 < STACK_SIZE && mem[sp + 1] == Top(st, 2)
    ensures |st| >= 5 ==> sp + 3 < STACK_SIZE && mem[sp + 2] == Top(st, 3) && mem[sp + 3] == Top(st, 4)
  {
  }

  method RunFlexRulesNew(hdr: Header, src: seq<real>, dest: array<real>)
    requires dest.Length == hdr.numFlexDesc && Run(New, hdr, src).Some?
    modifies dest
    ensures Some(dest[..]) == Run(New, hdr, src)
  {
    hide Step, Cached;
    forall i | 0 <= i < hdr.numFlexDesc {
      dest[i] := 0.0;
    }
    assert dest[..] == seq(hdr.numFlexDesc, _ => 0.0);
    var i := 0;
    while i < |hdr.rules|
      invariant 0 <= i <= |hdr.rules| && RunFrom(New, hdr, src, i, dest[..]) == Run(New, hdr, src)
    {
      var rule := hdr.rules[i];
      RunUnfold(New, hdr, src, i, dest[..]);
      var stack := new real[STACK_SIZE];
      var sp: nat, tos := STACK_SIZE, 0.0;
      ghost var inp, st := Inputs(hdr, src, dest[..]), Bottom(New);
      EmptyCached(stack[..]);
      var j := 0;
      while j < |rule.ops|
        invariant 0 <= j <= |rule.ops| && dest[..] == inp.dest && Cached(stack[..], sp, tos, st)
        invariant Exec(New, inp, rule.ops[j..], st) == Exec(New, inp, rule.ops, Bottom(New))
      {
        ExecUnfold(New, inp, rule.ops, j, st);
        sp, tos := OpNew(hdr, src, dest, rule.ops[j], stack, sp, tos, st);
        st := Step(New, inp, rule.ops[j], st).value;
        j := j + 1;
      }
      Below(stack[..], sp, tos, st);
      ghost var before := dest[..];
      dest[rule.flex] := tos;
      assert dest[..] == before[rule.flex := tos];
      i := i + 1;
    }
  }

  lemma EmptyCached(mem: seq<real>)
    requires |mem| == STACK_SIZE
    ensures Cached(mem, STACK_SIZE, 0.0, Bottom(New))
  {
  }

  // ----- where the two agree -----

  ghost predicate NoDominate(ops: seq<FlexOp>) {
    forall j {:trigger ops[j]} :: 0 <= j < |ops| ==> !ops[j].Dominate?
  }

  /** How many numbers an opcode leaves of n, or None when it lacks operands or room. */
  function DepthAfter(op: FlexOp, n: nat): Option<nat> {
    match op
    case Add | Sub | Mul | Div | Max | Min => if n < 2 then None else Some(n - 1)
    case Neg => if n < 1 then None else Some(n)
    case Const(_) | Fetch1(_) | Fetch2(_) | TwoWay0(_) | TwoWay1(_) => if n < STACK_SIZE then Some(n + 1) else None
    case Combo(m) => if 1 <= m <= n then Some(n - m + 1) else None
    case Dominate(m) => if 1 <= m < n then Some(n - m) else None
    case NWay(_) => if n < 5 then None else Some(n - 4)
    case LowerEyelid(_) | UpperEyelid(_) => if n < 3 then None else Some(n - 2)
    case Other(_) => Some(n)
  }

  /** How many numbers a rule leaves, from its opcodes alone. */
  function Depth(ops: seq<FlexOp>, n: nat): Option<nat> {
    if ops == [] then Some(n)
    else match DepthAfter(ops[0], n)
      case None => None
      case Some(k) => Depth(ops[1..], k)
  }

  lemma StepDepth(inp: Inputs, op: FlexOp, st: seq<real>)
    ensures Step(Old, inp, op, st).Some? ==> DepthAfter(op, |st|) == Some(|Step(Old, inp, op, st).value|)
  {
  }

  /** A number under the stack changes nothing above it. */
  lemma Under(z: real, st: seq<real>)
    ensures forall n: nat {:trigger Top([z] + st, n)} :: n < |st| ==> Top([z] + st, n) == Top(st, n)
    ensures forall n: nat, v {:trigger Replace([z] + st, n, v)} ::
              n <= |st| ==> Replace([z] + st, n, v) == [z] + Replace(st, n, v)
  {
  }

  /** What Step says of an opcode and a stack above a number it does not notice. */
  ghost predicate Unnoticed(inp: Inputs, op: FlexOp, st: seq<real>) {
    var o, n := Step(Old, inp, op, st), Step(New, inp, op, [0.0] + st);
    n == if o.Some? then Some([0.0] + o.value) else None
  }

  predicate Pushes(op: FlexOp) {
    op.Const? || op.Fetch1? || op.Fetch2? || op.TwoWay0? || op.TwoWay1?
  }

  lemma SamePush(inp: Inputs, op: FlexOp, st: seq<real>)
    requires Pushes(op)
    ensures Unnoticed(inp, op, st)
  {
    hide RemapValClamped;
    forall v
      ensures Push(New, [0.0] + st, v) == match Push(Old, st, v) case None => None case Some(r) => Some([0.0] + r)
    {
      assert [0.0] + st + [v] == [0.0] + (st + [v]);
    }
  }

  lemma SameCombo(inp: Inputs, m: int, st: seq<real>)
    requires 1 <= m <= |st|
    ensures Unnoticed(inp, Combo(m), st)
  {
    hide Product, Top, Replace;
    Under(0.0, st);
    assert ([0.0] + st)[|st| + 1 - m..] == st[|st| - m..];
  }

  lemma SameEyelid(inp: Inputs, op: FlexOp, st: seq<real>)
    requires (op.LowerEyelid? || op.UpperEyelid?) && |st| >= 3
    ensures Unnoticed(inp, op, st)
  {
    hide Product, LowerLid, UpperLid, Truncate, Inputs.Scaled, Inputs.Has, EyeUpDown, Top, Replace;
    Under(0.0, st);
  }

  /** An opcode with its operands does not notice the zero under the stack. */
  lemma SameStep(inp: Inputs, op: FlexOp, st: seq<real>)
    requires !op.Dominate? && DepthAfter(op, |st|).Some?
    ensures Unnoticed(inp, op, st)
  {
    hide Product, RemapValClamped, Ramp, Quotient, Times, Truncate, Inputs.Has, Inputs.Value, Top, Replace,
         EyelidInputs;
    if Pushes(op) {
      SamePush(inp, op, st);
    } else if op.Combo? {
      SameCombo(inp, op.index, st);
    } else if op.LowerEyelid? || op.UpperEyelid? {
      SameEyelid(inp, op, st);
    } else {
      Under(0.0, st);
    }
  }

  /** With its operands there, a rule without STUDIO_DOMINATE computes the same stack in both interpreters. */
  lemma {:induction false} SameExec(inp: Inputs, ops: seq<FlexOp>, st: seq<real>)
    requires NoDominate(ops) && Depth(ops, |st|).Some?
    ensures var o, n := Exec(Old, inp, ops, st), Exec(New, inp, ops, [0.0] + st);
            && n == (if o.Some? then Some([0.0] + o.value) else None)
            && (o.Some? ==> Depth(ops, |st|) == Some(|o.value|))
    decreases |ops|
  {
    hide Step, DepthAfter;
    if ops != [] {
      assert !ops[0].Dominate?;
      SameStep(inp, ops[0], st);
      assert Unnoticed(inp, ops[0], st);
      StepDepth(inp, ops[0], st);
      match Step(Old, inp, ops[0], st)
      case None =>
      case Some(next) => SameExec(inp, ops[1..], next);
    }
  }

  lemma {:induction false} RunsHaveDepth(inp: Inputs, ops: seq<FlexOp>, st: seq<real>)
    requires Exec(Old, inp, ops, st).Some?
    ensures Depth(ops, |st|).Some?
    decreases |ops|
  {
    hide Step, DepthAfter;
    if ops != [] {
      StepDepth(inp, ops[0], st);
      RunsHaveDepth(inp, ops[1..], Step(Old, inp, ops[0], st).value);
    }
  }

  /** A rule the old interpreter runs inside its stack and the tables: the new one takes the top where the old one
      takes the bottom, so they agree exactly when these are equal, and always when one number is left. */
  lemma SameRule(inp: Inputs, ops: seq<FlexOp>)
    requires NoDominate(ops) && Exec(Old, inp, ops, []).Some?
    ensures var st := Exec(Old, inp, ops, []).value;
            && RuleValue(New, inp, ops) == Some(if st == [] then 0.0 else Top(st, 0))
            && (RuleValue(Old, inp, ops) == RuleValue(New, inp, ops) <==> st != [] && st[0] == Top(st, 0))
            && (Depth(ops, 0) == Some(1) ==> RuleValue(Old, inp, ops) == RuleValue(New, inp, ops))
  {
    RunsHaveDepth(inp, ops, []);
    SameExec(inp, ops, []);
    assert [0.0] + [] == Bottom(New);
  }

  /** Two numbers left: one interpreter takes the first and the other the second. */
  lemma TwoLeftDiffer(inp: Inputs)
    ensures RuleValue(Old, inp, [Const(1.0), Const(2.0)]) == Some(1.0)
    ensures RuleValue(New, inp, [Const(1.0), Const(2.0)]) == Some(2.0)
  {
    var ops := [Const(1.0), Const(2.0)];
    assert ops[1..] == [Const(2.0)] && ops[1..][1..] == [];
    assert [] + [1.0] == [1.0] && [1.0] + [2.0] == [1.0, 2.0];
    assert Step(Old, inp, Const(1.0), []) == Some([1.0]) && Step(Old, inp, Const(2.0), [1.0]) == Some([1.0, 2.0]);
    assert Exec(Old, inp, ops[1..], [1.0]) == Exec(Old, inp, ops[1..][1..], [1.0, 2.0]);
    assert Exec(Old, inp, ops, []) == Some([1.0, 2.0]);
    SameRule(inp, ops);
  }

  /** No STUDIO_DOMINATE, operands for every opcode, and one number left. */
  ghost predicate LeavesOne(ops: seq<FlexOp>) {
    NoDominate(ops) && Depth(ops, 0) == Some(1)
  }

  lemma {:induction false} SameRunFrom(hdr: Header, src: seq<real>, i: nat, dest: seq<real>)
    requires forall r {:trigger hdr.rules[r]} :: 0 <= r < |hdr.rules| ==> LeavesOne(hdr.rules[r].ops)
    ensures RunFrom(Old, hdr, src, i, dest) == RunFrom(New, hdr, src, i, dest)
    decreases |hdr.rules| - i
  {
    hide Step;
    if i < |hdr.rules| {
      var rule, inp := hdr.rules[i], Inputs(hdr, src, dest);
      SameExec(inp, rule.ops, []);
      assert [0.0] + [] == Bottom(New);
      var v := RuleValue(Old, inp, rule.ops);
      assert v == RuleValue(New, inp, rule.ops);
      if v.Some? && rule.flex < |dest| {
        SameRunFrom(hdr, src, i + 1, dest[rule.flex := v.value]);
      }
    }
  }

  /** Rules that leave one number have the same results in both interpreters, whatever they fetch, and one fails
      to find a controller exactly when the other does. */
  lemma SameRun(hdr: Header, src: seq<real>)
    requires forall r {:trigger hdr.rules[r]} :: 0 <= r < |hdr.rules| ==> LeavesOne(hdr.rules[r].ops)
    ensures Run(Old, hdr, src) == Run(New, hdr, src)
  {
    SameRunFrom(hdr, src, 0, seq(hdr.numFlexDesc, _ => 0.0));
  }

  /** Both interpreters, side by side. */
  method RunBoth(hdr: Header, src: seq<real>, d1: array<real>, d2: array<real>)
    requires d1 != d2 && d1.Length == d2.Length == hdr.numFlexDesc && Run(Old, hdr, src).Some?
    requires forall r {:trigger hdr.rules[r]} :: 0 <= r < |hdr.rules| ==> LeavesOne(hdr.rules[r].ops)
    modifies d1, d2
    ensures d1[..] == d2[..] && Some(d1[..]) == Run(Old, hdr, src)
  {
    SameRun(hdr, src);
    RunFlexRulesOld(hdr, src, d1);
    RunFlexRulesNew(hdr, src, d2);
  }

  /** STUDIO_DOMINATE gives the same in both exactly when the suppressed value of the one equals
      the suppressed value of the other. */
  lemma DominateAgrees(st: seq<real>, m: nat)
    requires 1 <= m < |st|
    ensures Dominated(Old, st, m) == Dominated(New, [0.0] + st, m) <==> Top(st, m) == Top(st, 0)
  {
    hide Suppressed, Product;
    var n := |st|;
    var a, b, p := Top(st, m), Top(st, 0), Product(st[n - m..n - 1]);
    assert ([0.0] + st)[n - m..n] == st[n - 1 - m..n - 1];
    ProductSnoc(st, n - m, n - 1);
    assert st[n - m..n] == st[n - m..];
    assert Product(st[n - m..]) == p * b;
    ProductCons(st[..n - 1], n - 1 - m);
    assert st[..n - 1][n - 1 - m..] == st[n - 1 - m..n - 1] && st[..n - 1][n - m..] == st[n - m..n - 1];
    assert Product(st[n - 1 - m..n - 1]) == a * p;
    SuppressedBoth(a, b, p);
    assert Top([0.0] + st, 0) == b;
  }

  lemma SuppressedBoth(a: real, b: real, p: real)
    ensures Suppressed(a, p * b) == Suppressed(b, a * p) <==> a == b
  {
    assert a * (p * b) == b * (a * p);
    assert a * (1.0 - p * b) == a - a * (p * b) && b * (1.0 - a * p) == b - b * (a * p);
  }

  /** Two values and STUDIO_DOMINATE with one of them: 0.5 * (1 - 1) in one, 1 * (1 - 0.5) in the other. */
  lemma DominateDiffers(inp: Inputs)
    ensures RuleValue(Old, inp, [Const(0.5), Const(1.0), Dominate(1)]) == Some(0.0)
    ensures RuleValue(New, inp, [Const(0.5), Const(1.0), Dominate(1)]) == Some(0.5)
  {
    var ops := [Const(0.5), Const(1.0), Dominate(1)];
    var st, under := [0.5, 1.0], [0.0, 0.5, 1.0];
    assert ops[1..] == [Const(1.0), Dominate(1)] && ops[1..][1..] == [Dominate(1)] && [Dominate(1)][1..] == [];
    assert [] + [0.5] == [0.5] && [0.5] + [1.0] == st && [0.0] + [0.5] + [1.0] == under;
    assert st[1..] == [1.0] && under[1..2] == [0.5] && [1.0][..0] == [] && [0.5][..0] == [];
    assert Product([1.0]) == 1.0 && Product([0.5]) == 0.5;
    assert Step(Old, inp, Dominate(1), st) == Some(Replace(st, 2, 0.0));
    assert Step(New, inp, Dominate(1), under) == Some(Replace(under, 2, 0.5));
  }
}
