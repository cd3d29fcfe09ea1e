/** small_python_experiemnt/prioritization/utils.py, `extract_semantic_features`:
    the features of one test method that the semantic ordering scores. */
module SemanticFeatures {
  import opened Common
  import opened Text

  /** The method record the extractor reads: name, source text and the
      number of assertions counted by the AST pass. */
  datatype MethodInfo = MethodInfo(methodName: string, code: string, assertions: nat)

  /** The feature dictionary. `testsFunction` is absent when the key is not
      set. */
  datatype Features = Features(
    assertionCount: nat,
    codeLength: nat,
    testsFunction: Option<string>,
    functionCalls: seq<string>,
    uniqueFunctionCalls: seq<string>,
    testsExceptions: bool)

  /** `calculator_functions`, in the order they are tried. */
  const CalculatorFunctions: seq<string> := ["add", "subtract", "multiply", "divide", "power", "square_root"]

  /** The first of `names` that occurs in `methodName`. */
  function FirstContained(names: seq<string>, methodName: string): (r: Option<string>)
    ensures r.None? <==> forall i :: 0 <= i < |names| ==> !Contains(methodName, names[i])
    ensures r.Some? ==> exists i :: 0 <= i < |names| && r.value == names[i]
                          && Contains(methodName, names[i])
                          && forall j :: 0 <= j < i ==> !Contains(methodName, names[j])
  {
    if |names| == 0 then None
    else if Contains(methodName, names[0]) then Some(names[0])
    else
      var rest := FirstContained(names[1..], methodName);
      assert forall i :: 1 <= i < |names| ==> names[i] == names[1..][i - 1];
      if rest.Some? then
        var i :| 0 <= i < |names[1..]| && rest.value == names[1..][i]
                 && Contains(methodName, names[1..][i])
                 && forall j :: 0 <= j < i ==> !Contains(methodName, names[1..][j]);
        assert forall j :: 0 <= j < i + 1 ==> !Contains(methodName, names[j]) by {
          forall j | 0 <= j < i + 1
            ensures !Contains(methodName, names[j])
          {
            if j > 0 {
              assert names[j] == names[1..][j - 1];
            }
          }
        }
        rest
      else
        rest
  }

  /** `tests_function`: the first calculator function named in the method name. */
  function TestsFunction(methodName: string): Option<string>
  {
    FirstContained(CalculatorFunctions, methodName)
  }

  /** A character of the regex class `[a-zA-Z_]`. */
  predicate IsIdentChar(c: char)
  {
    ('a' <= c <= 'z') || ('A' <= c <= 'Z') || c == '_'
  }

  /** The length of the longest prefix of s made of identifier characters. */
  function IdentRun(s: string): (k: nat)
    ensures k <= |s|
    ensures forall i :: 0 <= i < k ==> IsIdentChar(s[i])
    ensures k < |s| ==> !IsIdentChar(s[k])
  {
    if |s| == 0 || !IsIdentChar(s[0]) then 0
    else
      var k := IdentRun(s[1..]);
      assert forall i :: 1 <= i < k + 1 ==> s[i] == s[1..][i - 1];
      k + 1
  }

  const CallPrefix: string := "calculator."

  /** A match of `calculator\.([a-zA-Z_]+)\(` at the start of s: the
      captured name and the length of the whole match. The identifier run is
      greedy, and a shorter run cannot be followed by `(`, so the match
      exists exactly when the maximal run is non-empty and followed by `(`. */
  function MatchAt(s: string): Option<(string, nat)>
  {
    if !StartsWith(s, CallPrefix) then None
    else
      var rest := s[|CallPrefix|..];
      var k := IdentRun(rest);
      if 0 < k < |rest| && rest[k] == '(' then Some((rest[..k], |CallPrefix| + k + 1)) else None
  }

  predicate IsIdentifier(name: string)
  {
    |name| > 0 && forall i :: 0 <= i < |name| ==> IsIdentChar(name[i])
  }

  lemma MatchAtIsCall(s: string)
    requires MatchAt(s).Some?
    ensures var (name, len) := MatchAt(s).value;
            && IsIdentifier(name)
            && 0 < len <= |s|
            && s[..len] == CallPrefix + name + "("
  {
    var rest := s[|CallPrefix|..];
    var k := IdentRun(rest);
    assert s[..|CallPrefix| + k + 1] == s[..|CallPrefix|] + rest[..k] + [rest[k]];
  }

  /** `re.findall(r'calculator\.([a-zA-Z_]+)\(', code)`: matches are taken
      left to right without overlapping; after a match the scan resumes
      behind it, otherwise one character later. */
  function FunctionCalls(code: string): (calls: seq<string>)
    ensures forall i :: 0 <= i < |calls| ==> IsIdentifier(calls[i])
    ensures forall i :: 0 <= i < |calls| ==> Contains(code, CallPrefix + calls[i] + "(")
    decreases |code|
  {
    if |code| == 0 then []
    else
      match MatchAt(code)
      case Some((name, len)) =>
        MatchAtIsCall(code);
        var rest := FunctionCalls(code[len..]);
        assert Contains(code, CallPrefix + name + "(") by {
          assert OccursAt(code, CallPrefix + name + "(", 0);
          OccursImpliesContains(code, CallPrefix + name + "(", 0);
        }
        forall i | 0 <= i < |rest|
          ensures Contains(code, CallPrefix + rest[i] + "(")
        {
          ContainsInSuffix(code, len, CallPrefix + rest[i] + "(");
        }
        [name] + rest
      case None =>
        var rest := FunctionCalls(code[1..]);
        forall i | 0 <= i < |rest|
          ensures Contains(code, CallPrefix + rest[i] + "(")
        {
          ContainsInSuffix(code, 1, CallPrefix + rest[i] + "(");
        }
        rest
  }

  /** Conversely, a call of an identifier at the start of s is matched in
      full: the identifier run stops exactly at the `(`. */
  lemma MatchOfCall(s: string, name: string)
    requires IsIdentifier(name) && StartsWith(s, CallPrefix + name + "(")
    ensures MatchAt(s) == Some((name, |CallPrefix| + |name| + 1))
  {
    var p := CallPrefix + name + "(";
    assert s[..|CallPrefix|] == p[..|CallPrefix|];
    var rest := s[|CallPrefix|..];
    forall i | 0 <= i < |name|
      ensures rest[i] == name[i]
    {
      assert rest[i] == s[|CallPrefix| + i] == p[|CallPrefix| + i];
    }
    assert rest[|name|] == '(' by {
      assert rest[|name|] == p[|CallPrefix| + |name|];
    }
    assert forall i :: 0 <= i < |name| ==> IsIdentChar(rest[i]);
    assert !IsIdentChar(rest[|name|]);
    var k := IdentRun(rest);
    assert k == |name|;
    assert rest[..k] == name;
  }

  /** The characters of a match at position 0: the letters of
      `calculator`, the `.`, identifier characters, and the closing `(`. */
  lemma MatchShape(code: string)
    requires MatchAt(code).Some?
    ensures var len := MatchAt(code).value.1;
            && |CallPrefix| + 2 <= len <= |code|
            && (forall y :: 0 <= y < |CallPrefix| - 1 ==> IsIdentChar(code[y]))
            && code[|CallPrefix| - 1] == '.'
            && (forall y :: |CallPrefix| <= y < len - 1 ==> IsIdentChar(code[y]))
            && code[len - 1] == '('
  {
    var (found, len) := MatchAt(code).value;
    MatchAtIsCall(code);
    var m := CallPrefix + found + "(";
    assert code[..len] == m;
    forall y | |CallPrefix| <= y < len - 1
      ensures IsIdentChar(code[y])
    {
      assert code[y] == m[y] == found[y - |CallPrefix|];
    }
    forall y | 0 <= y < |CallPrefix| - 1
      ensures IsIdentChar(code[y])
    {
      assert code[y] == m[y] == CallPrefix[y];
    }
    assert code[len - 1] == m[len - 1];
    assert code[|CallPrefix| - 1] == m[|CallPrefix| - 1];
  }

  /** The characters an occurrence of `calculator.<name>(` at i starts with. */
  lemma OccurrenceShape(code: string, name: string, i: nat)
    requires OccursAt(code, CallPrefix + name + "(", i)
    ensures forall y :: i <= y < i + |CallPrefix| - 1 ==> IsIdentChar(code[y])
    ensures code[i + |CallPrefix| - 1] == '.'
  {
    var p := CallPrefix + name + "(";
    assert code[i..i + |p|] == p;
    forall y | i <= y < i + |CallPrefix| - 1
      ensures IsIdentChar(code[y])
    {
      assert code[y] == p[y - i] == CallPrefix[y - i];
    }
    assert code[i + |CallPrefix| - 1] == p[|CallPrefix| - 1];
  }

  /** Matches never overlap an occurrence: a call cannot start strictly
      inside the match at position 0. Its `.` would fall on an identifier
      character or on the match's `(`, or else the match's `(` would fall
      inside its `calculator` letters. */
  lemma NoCallInsideMatch(code: string, name: string, i: nat)
    requires MatchAt(code).Some?
    requires OccursAt(code, CallPrefix + name + "(", i)
    ensures i == 0 || i >= MatchAt(code).value.1
  {
    MatchShape(code);
    OccurrenceShape(code, name, i);
  }

  function ShiftBy(s: seq<nat>, d: nat): (r: seq<nat>)
    ensures |r| == |s| && forall t :: 0 <= t < |s| ==> r[t] == s[t] + d
  {
    seq(|s|, t requires 0 <= t < |s| => s[t] + d)
  }

  /** Where each call the scan finds starts in the code: the scan's own
      positions, strictly increasing, one per call. */
  function MatchStarts(code: string): (starts: seq<nat>)
    ensures |starts| == |FunctionCalls(code)|
    decreases |code|
  {
    if |code| == 0 then []
    else
      match MatchAt(code)
      case Some((_, len)) =>
        MatchAtIsCall(code);
        [0] + ShiftBy(MatchStarts(code[len..]), len)
      case None =>
        ShiftBy(MatchStarts(code[1..]), 1)
  }

  /** The starts lie in the code and strictly increase. */
  lemma {:induction false} MatchStartsIncreasing(code: string)
    ensures forall t :: 0 <= t < |MatchStarts(code)| ==> MatchStarts(code)[t] < |code|
    ensures forall t, u :: 0 <= t < u < |MatchStarts(code)| ==> MatchStarts(code)[t] < MatchStarts(code)[u]
    decreases |code|
  {
    if |code| > 0 {
      var k := if MatchAt(code).Some? then MatchAt(code).value.1 else 1;
      if MatchAt(code).Some? {
        MatchAtIsCall(code);
      }
      MatchStartsIncreasing(code[k..]);
    }
  }

  /** One step of the scan: where it resumes, and how a call found from
      there is numbered and placed in the whole code. */
  lemma ScanShift(code: string, t': nat) returns (k: nat, t: nat)
    requires |code| > 0
    ensures k == (if MatchAt(code).Some? then MatchAt(code).value.1 else 1)
    ensures 0 < k <= |code|
    ensures t' < |FunctionCalls(code[k..])| ==>
              && t < |FunctionCalls(code)|
              && FunctionCalls(code)[t] == FunctionCalls(code[k..])[t']
              && MatchStarts(code)[t] == MatchStarts(code[k..])[t'] + k
  {
    if MatchAt(code).Some? {
      MatchAtIsCall(code);
      k, t := MatchAt(code).value.1, t' + 1;
      assert FunctionCalls(code) == [MatchAt(code).value.0] + FunctionCalls(code[k..]);
      assert MatchStarts(code) == [0] + ShiftBy(MatchStarts(code[k..]), k);
    } else {
      k, t := 1, t';
      assert MatchStarts(code) == ShiftBy(MatchStarts(code[1..]), 1);
    }
  }

  lemma OccursInSuffix(code: string, pattern: string, i: nat, k: nat)
    requires OccursAt(code, pattern, i) && k <= i
    ensures OccursAt(code[k..], pattern, i - k)
  {
    assert code[k..][i - k..i - k + |pattern|] == code[i..i + |pattern|];
  }

  /** A call at position 0 is the first call found. */
  lemma CallFoundAtStart(code: string, name: string)
    requires IsIdentifier(name) && OccursAt(code, CallPrefix + name + "(", 0)
    ensures 0 < |FunctionCalls(code)| && FunctionCalls(code)[0] == name
    ensures MatchStarts(code)[0] == 0
  {
    var p := CallPrefix + name + "(";
    assert code[..|p|] == p;
    MatchOfCall(code, name);
    MatchAtIsCall(code);
    var len := MatchAt(code).value.1;
    assert FunctionCalls(code) == [name] + FunctionCalls(code[len..]);
    assert MatchStarts(code) == [0] + ShiftBy(MatchStarts(code[len..]), len);
  }

  /** Every occurrence of `calculator.<identifier>(` in the code is the
      call the scan finds at that very position. */
  lemma {:induction false} CallFoundAt(code: string, name: string, i: nat) returns (t: nat)
    requires IsIdentifier(name) && OccursAt(code, CallPrefix + name + "(", i)
    ensures t < |FunctionCalls(code)| && FunctionCalls(code)[t] == name
    ensures MatchStarts(code)[t] == i
    decreases |code|
  {
    if i == 0 {
      CallFoundAtStart(code, name);
      t := 0;
    } else {
      var k := if MatchAt(code).Some? then MatchAt(code).value.1 else 1;
      if MatchAt(code).Some? {
        NoCallInsideMatch(code, name, i);
      }
      OccursInSuffix(code, CallPrefix + name + "(", i, k);
      var t' := CallFoundAt(code[k..], name, i - k);
      var _, t'' := ScanShift(code, t');
      t := t'';
    }
  }

  /** Completeness: every occurrence of `calculator.<identifier>(` in the
      code is found. */
  lemma CallFound(code: string, name: string, i: nat)
    requires IsIdentifier(name) && OccursAt(code, CallPrefix + name + "(", i)
    ensures name in FunctionCalls(code)
  {
    var t := CallFoundAt(code, name, i);
    assert FunctionCalls(code)[t] == name;
  }

  /** Order: of two calls, the one at the earlier position comes earlier in
      the result. */
  lemma CallsInOrder(code: string, first: string, i: nat, second: string, j: nat)
    returns (a: nat, b: nat)
    requires IsIdentifier(first) && OccursAt(code, CallPrefix + first + "(", i)
    requires IsIdentifier(second) && OccursAt(code, CallPrefix + second + "(", j)
    requires i < j
    ensures a < b < |FunctionCalls(code)|
    ensures FunctionCalls(code)[a] == first && FunctionCalls(code)[b] == second
  {
    a := CallFoundAt(code, first, i);
    b := CallFoundAt(code, second, j);
    MatchStartsIncreasing(code);
  }

  lemma NoPrefixNoMatch(code: string)
    requires !Contains(code, CallPrefix)
    ensures MatchAt(code).None?
  {
    if StartsWith(code, CallPrefix) {
      OccursImpliesContains(code, CallPrefix, 0);
    }
  }

  /** Code that never mentions `calculator.` has no calls. */
  lemma {:induction false} NoCallsWithoutPrefix(code: string)
    requires !Contains(code, CallPrefix)
    ensures FunctionCalls(code) == []
    decreases |code|
  {
    if |code| > 0 {
      NoPrefixNoMatch(code);
      ContainsInSuffix(code, 1, CallPrefix);
      NoCallsWithoutPrefix(code[1..]);
    }
  }

  /** `len(list(set(xs)))` is the number of distinct elements of xs. */
  lemma DedupCountsDistinct(xs: seq<string>)
    ensures |Dedup(xs)| == |set x | x in xs|
  {
    var r := Dedup(xs);
    CardOfElements(r);
    assert (set x | x in r) == (set x | x in xs);
  }

  /** `list(set(xs))`: the distinct elements of xs. Python leaves the order
      of the set unspecified; this model keeps first occurrences. */
  function Dedup(xs: seq<string>): (r: seq<string>)
    ensures Distinct(r)
    ensures forall x :: x in r <==> x in xs
    ensures |r| <= |xs|
  {
    if |xs| == 0 then []
    else
      var rest := Dedup(xs[..|xs| - 1]);
      var last := xs[|xs| - 1];
      assert forall x :: x in xs <==> x in xs[..|xs| - 1] || x == last by {
        assert xs == xs[..|xs| - 1] + [last];
      }
      if last in rest then rest else rest + [last]
  }

  /** `extract_semantic_features`. */
  function ExtractSemanticFeatures(info: MethodInfo): (f: Features)
    ensures f.assertionCount == info.assertions
    ensures f.codeLength == |info.code|
    ensures f.testsExceptions <==> Contains(info.code, "pytest.raises")
    ensures f.testsFunction.None? <==> forall i :: 0 <= i < |CalculatorFunctions| ==> !Contains(info.methodName, CalculatorFunctions[i])
    ensures f.testsFunction.Some? ==> f.testsFunction.value in CalculatorFunctions && Contains(info.methodName, f.testsFunction.value)
    ensures f.functionCalls == FunctionCalls(info.code)
    ensures Distinct(f.uniqueFunctionCalls)
    ensures forall x :: x in f.uniqueFunctionCalls <==> x in f.functionCalls
    ensures |f.uniqueFunctionCalls| <= |f.functionCalls|
  {
    var calls := FunctionCalls(info.code);
    Features(
      info.assertions,
      |info.code|,
      TestsFunction(info.methodName),
      calls,
      Dedup(calls),
      Contains(info.code, "pytest.raises"))
  }

  /** The tests_function is the first calculator function in list order:
      `test_subtract_add` is classified as `add`, whichever comes first in
      the name. */
  lemma TestsFunctionPrefersListOrder()
    ensures TestsFunction("test_subtract_add") == Some("add")
  {
    var name := "test_subtract_add";
    assert OccursAt(name, "add", 14);
    OccursImpliesContains(name, "add", 14);
  }
}
