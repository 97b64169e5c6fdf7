/**
 A model of the demo module: a greeting formatter and a summation helper.

 `Greet` is the module's f-string greeting, built from a fixed prefix, the
 name and a fixed suffix. `ParseGreeting` is its inverse, used to state that
 the name can always be read back out of a greeting and that nothing else is
 a greeting.

 `CalculateSum` is the built-in `sum` over a list of integers: it starts from
 0 and adds the elements left to right. `Sum` is an independent recursive
 reference definition; the lemmas show that it is additive over
 concatenation and invariant under permutation.
 */
module Demo {

  datatype Option<T> = None | Some(value: T)

  /** Text placed before the name in every greeting (7 characters). */
  const Prefix: string := "Hello, "

  /** Text placed after the name in every greeting (47 characters). */
  const Suffix: string := "! Welcome to VS Code Server with Roo extension."

  /** Number of characters a greeting adds around the name. */
  const Overhead: nat := |Prefix| + |Suffix|

  /* ------------------------------------------------------------------
     Greeting
     ------------------------------------------------------------------ */

  /** The greeting for `name`; every string, the empty one included, has one. */
  function Greet(name: string): (r: string)
    ensures |r| == |name| + Overhead
    ensures r[..|Prefix|] == Prefix
    ensures r[|Prefix|..|Prefix| + |name|] == name
    ensures r[|r| - |Suffix|..] == Suffix
  {
    Prefix + name + Suffix
  }

  /** Reads the name back out of a greeting, or None if `s` is not one. */
  function ParseGreeting(s: string): (r: Option<string>)
    ensures r.Some? ==> Greet(r.value) == s
    ensures r.Some? ==> |r.value| == |s| - Overhead
  {
    if |s| >= Overhead && s[..|Prefix|] == Prefix && s[|s| - |Suffix|..] == Suffix then
      var name := s[|Prefix|..|s| - |Suffix|];
      assert s == Prefix + name + Suffix by {
        assert s == s[..|Prefix|] + s[|Prefix|..|s| - |Suffix|] + s[|s| - |Suffix|..];
      }
      Some(name)
    else
      None
  }

  /** Every greeting parses back to the name it was built from. */
  lemma ParseGreet(name: string)
    ensures ParseGreeting(Greet(name)) == Some(name)
  {
    var g := Greet(name);
    assert g[..|Prefix|] == Prefix;
    assert g[|g| - |Suffix|..] == Suffix;
    assert g[|Prefix|..|g| - |Suffix|] == name;
  }

  /** A string that does not parse is the greeting of no name. */
  lemma ParseGreetingComplete(s: string)
    ensures ParseGreeting(s).None? <==> forall name :: Greet(name) != s
  {
    if ParseGreeting(s).None? {
      forall name
        ensures Greet(name) != s
      {
        ParseGreet(name);
      }
    }
  }

  /** Distinct names give distinct greetings. */
  lemma GreetInjective(a: string, b: string)
    ensures Greet(a) == Greet(b) <==> a == b
  {
    if Greet(a) == Greet(b) {
      ParseGreet(a);
      ParseGreet(b);
    }
  }

  /** `t` occurs in `s` as a contiguous slice starting at index `i`. */
  predicate OccursAt(s: string, t: string, i: int)
  {
    0 <= i <= |s| - |t| && s[i..i + |t|] == t
  }

  /** The name occurs in its greeting as a contiguous slice. */
  lemma GreetContainsName(name: string)
    ensures exists i :: OccursAt(Greet(name), name, i)
  {
    assert OccursAt(Greet(name), name, |Prefix|);
  }

  /** A greeting is 54 characters longer than the name: 7 before it, 47 after. */
  lemma GreetLength(name: string)
    ensures |Greet(name)| == |name| + 54
    ensures Greet(name)[..7] == "Hello, "
    ensures Greet(name)[|name| + 7..] == "! Welcome to VS Code Server with Roo extension."
  {
  }

  /** Spells out the greeting text around a given name, a piece at a time.
      This lemma and the two `Developer` lemmas below have no counterpart in
      the module: they only split long string literals into pieces the
      verifier can compare. */
  lemma GreetingText(name: string, head: string, expected: string)
    requires head == Prefix + name + "! Welcome to VS Code Server with"
    requires expected == head + " Roo extension."
    ensures Greet(name) == expected
  {
    assert Suffix == "! Welcome to VS Code Server with" + " Roo extension.";
  }

  /** The empty name still yields a greeting: there is no failure case. */
  lemma GreetEmpty()
    ensures Greet("") == "Hello, ! Welcome to VS Code Server with Roo extension."
  {
    var head := "Hello, ! Welcome to VS Code Server with";
    assert Prefix + "" == Prefix;
    assert head == Prefix + "" + "! Welcome to VS Code Server with";
    GreetingText("", head, "Hello, ! Welcome to VS Code Server with Roo extension.");
  }

  /** The sample greeting up to the last two words of the suffix. */
  lemma DeveloperHead()
    ensures Prefix + "Developer" + "! Welcome to VS Code Server with"
         == "Hello, Developer! Welcome to VS Code Server with"
  {
    assert Prefix + "Developer" == "Hello, Developer";
  }

  /** The last two words of the suffix complete the sample greeting. */
  lemma DeveloperTail()
    ensures "Hello, Developer! Welcome to VS Code Server with" + " Roo extension."
         == "Hello, Developer! Welcome to VS Code Server with Roo extension."
  {
  }

  /** The sample greeting of the entry point. */
  lemma GreetDeveloper()
    ensures Greet("Developer") == "Hello, Developer! Welcome to VS Code Server with Roo extension."
  {
    var head := "Hello, Developer! Welcome to VS Code Server with";
    DeveloperHead();
    DeveloperTail();
    GreetingText("Developer", head, "Hello, Developer! Welcome to VS Code Server with Roo extension.");
  }

  /* ------------------------------------------------------------------
     Summation
     ------------------------------------------------------------------ */

  /** Reference definition of the sum of a sequence of integers: 0 for the
      empty sequence, else the first element plus the sum of the rest. */
  function Sum(s: seq<int>): (r: int)
    ensures (forall i :: 0 <= i < |s| ==> s[i] >= 0) ==> r >= 0
    ensures (forall i :: 0 <= i < |s| ==> s[i] <= 0) ==> r <= 0
  {
    if |s| == 0 then 0 else s[0] + Sum(s[1..])
  }

  /** The built-in `sum`: an accumulator starting at 0, elements added in order. */
  method CalculateSum(numbers: seq<int>) returns (total: int)
    ensures total == Sum(numbers)
  {
    total := 0;
    var i := 0;
    while i < |numbers|
      invariant 0 <= i <= |numbers|
      invariant total == Sum(numbers[..i])
    {
      SumAppend(numbers[..i], [numbers[i]]);
      assert numbers[..i] + [numbers[i]] == numbers[..i + 1];
      total := total + numbers[i];
      i := i + 1;
    }
    assert numbers[..i] == numbers;
  }

  /** The empty list sums to 0. */
  lemma SumEmpty()
    ensures Sum([]) == 0
  {
  }

  /** A one-element list sums to its element. */
  lemma SumSingleton(x: int)
    ensures Sum([x]) == x
  {
  }

  /** Summing is additive over concatenation. */
  lemma {:induction false} SumAppend(xs: seq<int>, ys: seq<int>)
    ensures Sum(xs + ys) == Sum(xs) + Sum(ys)
  {
    if |xs| == 0 {
      assert xs + ys == ys;
    } else {
      assert (xs + ys)[1..] == xs[1..] + ys;
      SumAppend(xs[1..], ys);
    }
  }

  /** Removing the element at `j` takes it out of the sum. */
  lemma SumRemove(s: seq<int>, j: int)
    requires 0 <= j < |s|
    ensures Sum(s) == s[j] + Sum(s[..j] + s[j + 1..])
  {
    assert s == s[..j] + ([s[j]] + s[j + 1..]);
    SumAppend(s[..j], [s[j]] + s[j + 1..]);
    SumAppend(s[..j], s[j + 1..]);
  }

  /** Removing the element at `j` takes one copy of it out of the multiset. */
  lemma MultisetRemove(s: seq<int>, j: int)
    requires 0 <= j < |s|
    ensures multiset(s[..j] + s[j + 1..]) == multiset(s) - multiset{s[j]}
  {
    assert s == s[..j] + [s[j]] + s[j + 1..];
  }

  /** Sequences holding the same elements, in any order, have the same sum. */
  lemma {:induction false} SumPermutation(a: seq<int>, b: seq<int>)
    requires multiset(a) == multiset(b)
    ensures Sum(a) == Sum(b)
    decreases |a|
  {
    if |a| == 0 {
      assert |b| == |multiset(b)| == 0;
    } else {
      var x := a[0];
      assert x in multiset(b);
      var j :| 0 <= j < |b| && b[j] == x;
      var rest := b[..j] + b[j + 1..];
      MultisetRemove(a, 0);
      MultisetRemove(b, j);
      assert a[..0] + a[1..] == a[1..];
      SumPermutation(a[1..], rest);
      SumRemove(b, j);
      assert Sum(a) == x + Sum(a[1..]);
    }
  }

  /** The sample list of the entry point sums to 15. */
  lemma SumSample()
    ensures Sum([1, 2, 3, 4, 5]) == 15
  {
  }
}
