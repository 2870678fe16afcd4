/**
 Brazilian-style number rendering (cambio.py, `brl`, `pct` and the two inline
 chains of the result panel).

 Python renders a number in US style (`1,234.56`); the program turns it into
 Brazilian style (`1.234,56`) with three chained single-character replaces:
 `,` -> `X`, then `.` -> `,`, then `X` -> `.`. The formatter itself
 (`f"{v:,.Nf}"`) is library code and is a parameter here.
 */
module BrFormat {

  /** The text Python's `f"{v:,.{d}f}"` produces for value `v` and `d` decimals. */
  type Formatter = (real, nat) -> string

  /** The placeholder character the chain parks commas on. */
  const Placeholder: char := 'X'

  /** `s.replace(from, to)` for single characters: every occurrence is replaced. */
  function Replace(s: string, from: char, to: char): (r: string)
    ensures |r| == |s|
    ensures forall i :: 0 <= i < |s| ==> r[i] == (if s[i] == from then to else s[i])
  {
    if s == [] then [] else [if s[0] == from then to else s[0]] + Replace(s[1..], from, to)
  }

  /** What the chain does to one character: `,` and `X` become `.`, `.` becomes `,`. */
  function ChainChar(c: char): char {
    if c == ',' || c == Placeholder then '.' else if c == '.' then ',' else c
  }

  /** The three-step chain `.replace(",", "X").replace(".", ",").replace("X", ".")`. */
  function SwapChain(s: string): (r: string)
    ensures |r| == |s|
    ensures forall i :: 0 <= i < |s| ==> r[i] == ChainChar(s[i])
  {
    Replace(Replace(Replace(s, ',', Placeholder), '.', ','), Placeholder, '.')
  }

  /** True when `s` does not contain the placeholder (every formatter output). */
  predicate PlaceholderFree(s: string) {
    forall i :: 0 <= i < |s| ==> s[i] != Placeholder
  }

  /** The intended meaning: exchange `,` and `.`, keep every other character. */
  function SwapSeparator(c: char): char {
    if c == ',' then '.' else if c == '.' then ',' else c
  }

  /** Simultaneous swap of `,` and `.` over a whole string (reference definition). */
  function SwapSeparators(s: string): (r: string)
    ensures |r| == |s|
  {
    if s == [] then [] else [SwapSeparator(s[0])] + SwapSeparators(s[1..])
  }

  /** Position `i` of the swap is the swapped character at position `i`. */
  lemma {:induction false} SwapSeparatorsAt(s: string, i: nat)
    requires i < |s|
    ensures SwapSeparators(s)[i] == SwapSeparator(s[i])
  {
    if i > 0 {
      SwapSeparatorsAt(s[1..], i - 1);
    }
  }

  /** On placeholder-free input the chain is exactly the simultaneous swap. */
  lemma ChainIsSwap(s: string)
    requires PlaceholderFree(s)
    ensures SwapChain(s) == SwapSeparators(s)
  {
    forall i | 0 <= i < |s| ensures SwapChain(s)[i] == SwapSeparators(s)[i] {
      assert s[i] != Placeholder;
      SwapSeparatorsAt(s, i);
    }
  }

  /** The placeholder-free hypothesis is needed: the chain turns `X` into `.`. */
  lemma ChainDiffersOnPlaceholder()
    ensures SwapChain("X") == "."
    ensures SwapChain("X") != SwapSeparators("X")
  {
  }

  /** The chain sends a placeholder-free string to a placeholder-free string. */
  lemma ChainKeepsPlaceholderFree(s: string)
    requires PlaceholderFree(s)
    ensures PlaceholderFree(SwapChain(s))
  {
    forall i | 0 <= i < |s| ensures SwapChain(s)[i] != Placeholder {
      assert s[i] != Placeholder;
    }
  }

  /** Applying the chain twice to a placeholder-free string gives it back. */
  lemma ChainInvolution(s: string)
    requires PlaceholderFree(s)
    ensures SwapChain(SwapChain(s)) == s
  {
    ChainKeepsPlaceholderFree(s);
    forall i | 0 <= i < |s| ensures SwapChain(SwapChain(s))[i] == s[i] {
      assert s[i] != Placeholder;
    }
  }

  /** The chain works character by character, so it distributes over concatenation. */
  lemma ChainAppend(a: string, b: string)
    ensures SwapChain(a + b) == SwapChain(a) + SwapChain(b)
  {
    var whole := SwapChain(a + b);
    var parts := SwapChain(a) + SwapChain(b);
    forall i | 0 <= i < |whole| ensures whole[i] == parts[i] {
      if i < |a| {
        assert (a + b)[i] == a[i] && parts[i] == SwapChain(a)[i];
      } else {
        assert (a + b)[i] == b[i - |a|] && parts[i] == SwapChain(b)[i - |a|];
      }
    }
  }

  /** The inline chain of the result panel: `f"{v:,.{d}f}"` in Brazilian style. */
  function BrDecimal(fmt: Formatter, v: real, decimals: nat): (r: string)
    ensures |r| == |fmt(v, decimals)|
    ensures PlaceholderFree(fmt(v, decimals)) ==> r == SwapSeparators(fmt(v, decimals))
  {
    var s := fmt(v, decimals);
    if PlaceholderFree(s) then ChainIsSwap(s); SwapChain(s) else SwapChain(s)
  }

  /** `brl(v)`: the 2-decimal rendering, swapped, after the currency marker `R$ `. */
  function Brl(fmt: Formatter, v: real): (r: string)
    ensures |r| == 3 + |fmt(v, 2)|
    ensures r[..3] == "R$ "
    ensures PlaceholderFree(fmt(v, 2)) ==> r == "R$ " + SwapSeparators(fmt(v, 2))
  {
    "R$ " + BrDecimal(fmt, v, 2)
  }

  /** `pct(v, d)`: the rendering of `v * 100` with `d` decimals and a `%` sign, all swapped. */
  function Pct(fmt: Formatter, fraction: real, decimals: nat): (r: string)
    ensures |r| == |fmt(fraction * 100.0, decimals)| + 1
    ensures r[|r| - 1] == '%'
    ensures r == BrDecimal(fmt, fraction * 100.0, decimals) + "%"
  {
    var s := fmt(fraction * 100.0, decimals) + "%";
    ChainAppend(fmt(fraction * 100.0, decimals), "%");
    assert SwapChain("%") == "%" by { assert SwapChain("%")[0] == '%'; }
    SwapChain(s)
  }
}
