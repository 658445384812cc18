/**
  The CubePL `defined(name)` expression: 1 when the variable `name` is
  defined in the expression memory, 0 otherwise, whatever call path,
  system resource or flavours it is evaluated for. The memory manager is
  modelled as the set of defined variable names.
*/
module DefinedVariable {
  import opened CubeTypes
  import opened Trees

  /** The names currently defined in the CubePL memory. */
  type Memory = set<string>

  /** A `defined(...)` expression for one variable name. */
  datatype DefinedVariableEvaluation = DefinedVariableEvaluation(variable: string)

  /** `eval()`: 1 iff the variable is defined. */
  function Eval(memory: Memory, e: DefinedVariableEvaluation): (r: real)
    ensures r == 0.0 || r == 1.0
    ensures r == 1.0 <==> e.variable in memory
  {
    if e.variable in memory then 1.0 else 0.0
  }

  /** `eval(cnode, cf, sysres, sf)`: the context is ignored. */
  function EvalAt(memory: Memory, e: DefinedVariableEvaluation, c: Cnode, cf: Flavour, sys: Sysres, sf: Flavour): (r: real)
    ensures r == 1.0 <==> e.variable in memory
    ensures r == 0.0 <==> e.variable !in memory
  {
    Eval(memory, e)
  }

  /** `eval(cnode, cf)`. */
  function EvalAtCnode(memory: Memory, e: DefinedVariableEvaluation, c: Cnode, cf: Flavour): (r: real)
    ensures r == 1.0 <==> e.variable in memory
    ensures r == 0.0 <==> e.variable !in memory
  {
    Eval(memory, e)
  }

  // The overloads below mirror the source's `eval` and `eval_row`
  // signatures one for one; each ignores its context, as OverloadsAgree
  // states.

  /** `eval(list of cnodes, list of system resources)`. */
  function EvalLists(memory: Memory, e: DefinedVariableEvaluation,
                     cnodes: seq<(Cnode, Flavour)>, sysres: seq<(Sysres, Flavour)>): (r: real)
    ensures r == 1.0 <==> e.variable in memory
    ensures r == 0.0 <==> e.variable !in memory
  {
    Eval(memory, e)
  }

  /** `eval(double, double)`: the two arguments are ignored. */
  function EvalPair(memory: Memory, e: DefinedVariableEvaluation, a: real, b: real): (r: real)
    ensures r == 1.0 <==> e.variable in memory
    ensures r == 0.0 <==> e.variable !in memory
  {
    Eval(memory, e)
  }

  /** `strEval()`: the digit "1" or "0". */
  function StrEval(memory: Memory, e: DefinedVariableEvaluation): (s: string)
    ensures |s| == 1
    ensures s == "1" <==> e.variable in memory
    ensures s == "0" <==> e.variable !in memory
  {
    if e.variable in memory then "1" else "0"
  }

  /** `eval_row(cnode, flavour)`: no row (NULL). */
  function EvalRow(memory: Memory, e: DefinedVariableEvaluation, c: Cnode, cf: Flavour): (r: Option<seq<real>>)
    ensures r.None?
  {
    None
  }

  /** `eval_row(list of cnodes, list of system resources)`: NULL too. */
  function EvalRowLists(memory: Memory, e: DefinedVariableEvaluation,
                        cnodes: seq<(Cnode, Flavour)>, sysres: seq<(Sysres, Flavour)>): (r: Option<seq<real>>)
    ensures r.None?
  {
    None
  }

  /** The decimal digit of a one-character string. */
  function DigitValue(s: string): real
    requires |s| == 1
  {
    (s[0] as int - '0' as int) as real
  }

  /** Every overload answers the same, and the string form spells the
      number. */
  lemma OverloadsAgree(memory: Memory, e: DefinedVariableEvaluation, c: Cnode, cf: Flavour, sys: Sysres, sf: Flavour,
                       cnodes: seq<(Cnode, Flavour)>, sysres: seq<(Sysres, Flavour)>, a: real, b: real)
    ensures EvalAt(memory, e, c, cf, sys, sf) == EvalAtCnode(memory, e, c, cf)
            == EvalLists(memory, e, cnodes, sysres) == EvalPair(memory, e, a, b) == Eval(memory, e)
    ensures DigitValue(StrEval(memory, e)) == Eval(memory, e)
  {
  }

  /** Defining more variables never turns a `defined(...)` from 1 to 0. */
  lemma EvalMonotone(memory: Memory, memory': Memory, e: DefinedVariableEvaluation)
    requires memory <= memory'
    ensures Eval(memory, e) <= Eval(memory', e)
  {
  }
}
