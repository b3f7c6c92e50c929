/**
 * Name de-duplication, as done for lobby names in `createLobby` and for player
 * names in `approveJoin`: keep the requested name if nobody has it, otherwise
 * try `name_1`, `name_2`, … and take the first one nobody has.
 */
module Names {

  /** One decimal digit. */
  function DigitChar(d: nat): (c: char)
    requires d < 10
    ensures '0' <= c <= '9'
  {
    ('0' as int + d) as char
  }

  /** What a JavaScript template literal prints for a non-negative integer. */
  function DecimalString(n: nat): (s: string)
    ensures 1 <= |s|
    ensures n < 10 <==> |s| == 1
    decreases n
  {
    if n < 10 then [DigitChar(n)] else DecimalString(n / 10) + [DigitChar(n % 10)]
  }

  /** Different numbers print differently. */
  lemma {:induction false} DecimalStringInjective(a: nat, b: nat)
    requires DecimalString(a) == DecimalString(b)
    ensures a == b
    decreases a
  {
    if a >= 10 && b >= 10 {
      var sa, sb := DecimalString(a), DecimalString(b);
      assert sa[|sa| - 1] == DigitChar(a % 10) && sb[|sb| - 1] == DigitChar(b % 10);
      assert a % 10 == b % 10;
      assert sa[..|sa| - 1] == DecimalString(a / 10);
      assert sb[..|sb| - 1] == DecimalString(b / 10);
      DecimalStringInjective(a / 10, b / 10);
    }
  }

  /** The k-th candidate: `${name}_${k}`. */
  function Suffixed(name: string, k: nat): string
  {
    name + "_" + DecimalString(k)
  }

  lemma SuffixedInjective(name: string, j: nat, k: nat)
    requires Suffixed(name, j) == Suffixed(name, k)
    ensures j == k
  {
    var n := |name| + 1;
    assert Suffixed(name, j)[n..] == DecimalString(j);
    assert Suffixed(name, k)[n..] == DecimalString(k);
    DecimalStringInjective(j, k);
  }

  /** Candidates already tried before the k-th. */
  ghost function Tried(name: string, k: nat): set<string>
  {
    set j | 1 <= j < k :: Suffixed(name, j)
  }

  /** Skipping a taken candidate removes it from what is still untried. */
  lemma SkipShrinks(name: string, taken: set<string>, k: nat)
    requires 1 <= k
    requires Suffixed(name, k) in taken
    ensures |taken - Tried(name, k + 1)| < |taken - Tried(name, k)|
  {
    var c := Suffixed(name, k);
    assert c !in Tried(name, k) by {
      if c in Tried(name, k) {
        var j :| 1 <= j < k && Suffixed(name, j) == c;
        SuffixedInjective(name, j, k);
      }
    }
    assert Tried(name, k + 1) == Tried(name, k) + {c};
    assert taken - Tried(name, k + 1) == (taken - Tried(name, k)) - {c};
  }

  /** The search of the `while` loop, from candidate k on. It ends because
      every candidate it skips is a distinct member of the finite `taken`. */
  function FirstFreeSuffix(name: string, taken: set<string>, k: nat): (r: nat)
    requires 1 <= k
    ensures k <= r
    ensures Suffixed(name, r) !in taken
    ensures forall j :: k <= j < r ==> Suffixed(name, j) in taken
    decreases |taken - Tried(name, k)|
  {
    if Suffixed(name, k) !in taken then k
    else
      SkipShrinks(name, taken, k);
      FirstFreeSuffix(name, taken, k + 1)
  }

  /** The de-duplicated name: free, equal to the request when the request is
      free, and otherwise the first free `name_k` with k >= 1. */
  function UniqueName(name: string, taken: set<string>): (r: string)
    ensures r !in taken
    ensures name !in taken ==> r == name
    ensures name in taken ==> exists k :: 1 <= k && r == Suffixed(name, k)
                                 && forall j :: 1 <= j < k ==> Suffixed(name, j) in taken
  {
    if name !in taken then name
    else
      var k := FirstFreeSuffix(name, taken, 1);
      Suffixed(name, k)
  }

  /** Creating "Alpha" twice gives "Alpha", then "Alpha_1". */
  lemma AlphaTwice()
    ensures UniqueName("Alpha", {}) == "Alpha"
    ensures UniqueName("Alpha", {"Alpha"}) == "Alpha_1"
  {
    assert DecimalString(1) == "1";
    assert Suffixed("Alpha", 1) == "Alpha_1";
    assert "Alpha_1" !in {"Alpha"};
    assert FirstFreeSuffix("Alpha", {"Alpha"}, 1) == 1;
  }
}
