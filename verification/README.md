# Demo module: greeting and summation

A Dafny model of `workspace/test_python.py`, a small demonstration module with
two pure functions:

- `greet(name)` formats the greeting `"Hello, " + name + "! Welcome to VS Code
  Server with Roo extension."`. It is total: every string, the empty one
  included, gets a greeting (within the strings Dafny can represent; see
  "Left out"). The model is `Demo.Greet` over `seq<char>`, with
  `Demo.ParseGreeting` as its inverse: the name can always be read back out of
  a greeting, and a string that does not parse is nobody's greeting.
- `calculate_sum(numbers)` is the built-in `sum`, which starts from 0 and adds
  the elements in order. The model is `Demo.CalculateSum`, a method with that
  accumulator loop, proved equal to `Demo.Sum`, an independent recursive
  definition. Lemmas about `Sum` give the empty-list base case, additivity
  over concatenation and invariance under permutation (sequences with equal
  multisets have equal sums).

Everything lives in one module, `Demo`, in `demo.dfy`.

`calculate_sum`'s docstring says it returns a float. The code returns
whatever `sum` returns, which is an integer for a list of integers. The model
follows the code. Python integers are unbounded, so Dafny's `int` models them
exactly, with no wrap-around.

## Model

| member | source | states |
|---|---|---|
| Demo.Greet | workspace/test_python.py:7-17 | defined for every name Dafny can represent; the result is the fixed prefix, then the name as a contiguous slice right after it, then the fixed suffix, and its length is the name's plus both fixed parts |
| Demo.GreetLength | workspace/test_python.py:17 | a greeting is exactly 54 characters longer than the name; it starts with the 7 characters `Hello, ` and ends with the 47-character welcome suffix |
| Demo.ParseGreeting | workspace/test_python.py:17 | whenever a name is read back out of a string, that string is exactly the greeting of that name |
| Demo.ParseGreet | workspace/test_python.py:17 | the greeting of any name parses back to that same name (round trip) |
| Demo.ParseGreetingComplete | workspace/test_python.py:17 | a string fails to parse if and only if it is the greeting of no name |
| Demo.GreetInjective | workspace/test_python.py:17 | two names give the same greeting if and only if they are the same name |
| Demo.GreetContainsName | workspace/test_python.py:17 | the name occurs in its greeting as a substring |
| Demo.GreetEmpty | workspace/test_python.py:7-17 | the empty name gives `Hello, ! Welcome to VS Code Server with Roo extension.` rather than an error |
| Demo.GreetDeveloper | workspace/test_python.py:33 | the entry point's sample name `Developer` gives `Hello, Developer! Welcome to VS Code Server with Roo extension.` |
| Demo.Sum | workspace/test_python.py:29 | reference definition of the value of `sum`: 0 for the empty list, else the first element plus the sum of the rest; its contract states that a list of non-negative numbers has a non-negative sum and a list of non-positive numbers a non-positive one |
| Demo.CalculateSum | workspace/test_python.py:19-29 | accumulating from 0 over the list left to right yields the sum of all elements |
| Demo.SumEmpty | workspace/test_python.py:29 | the empty list sums to 0, the start value of `sum` |
| Demo.SumSingleton | workspace/test_python.py:29 | a one-element list sums to that element |
| Demo.SumAppend | workspace/test_python.py:19-29 | the sum of a concatenation is the sum of the two parts' sums |
| Demo.SumRemove | workspace/test_python.py:19-29 | taking one element out of a list takes exactly its value out of the sum |
| Demo.SumPermutation | workspace/test_python.py:21-29 | lists holding the same elements in any order (equal multisets) have equal sums |
| Demo.SumSample | workspace/test_python.py:37-38 | the entry point's sample list `[1, 2, 3, 4, 5]` sums to 15 |

## Left out

- The `if __name__ == "__main__":` block (workspace/test_python.py:31-39): it prints to the console, and the second line shows Python's rendering of a list, which is runtime formatting rather than logic. Only its two sample values are kept, as `Demo.GreetDeveloper` and `Demo.SumSample`.
- Float elements for `calculate_sum`: floating-point addition is not associative, so additivity and permutation invariance do not hold for it. The model takes integer lists only.
- Non-numeric list elements (where `sum` raises `TypeError`) and non-string names (where the f-string calls `str()` on the value): these come from dynamic typing, not from designed behaviour.
- The optional `start` argument of the built-in `sum`: the module never passes it, so the model always starts from 0.
- Demo.Greet: names containing a lone surrogate code point (U+D800 to U+DFFF) are outside the model. A Python `str` can hold them, for example after decoding with `surrogateescape`, but a Dafny `char` is a Unicode scalar value and cannot. Lengths count code points in both languages, so nothing else changes.
- The shebang line and the module docstring (workspace/test_python.py:1-5): metadata only.
