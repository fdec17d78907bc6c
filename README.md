# Instrumented cycle sort and Shell sort, modelled in Dafny

This project models the two benchmark programs of the repository Trabalho01-PAA.

- **src/cycleSort.c** holds three parts.
  - `cycleSort` is an in-place cycle sort. It counts one comparison per scan step and per skipped duplicate, and one swap per write.
  - `gerarVetor` builds the benchmark arrays. Types 1 and 2 are ascending and descending drifts that restart near the bound. Type 3 is a uniform fill followed by `shuffle`.
  - `executarExperimento` is the repetition loop.
- **src/shellSort.c** holds `shellSort` and its helpers.
  - `shellSort` is a gap-h insertion sort over Knuth's increments `(3^k - 1)/2`. It counts every executed shift test as a comparison and every shift as a swap.
  - The helpers are the interval check `verificarIntervalo`, the generators `gerarCrescente`, `gerarDecrescente` and `gerarAleatorio`, and `copiarVetor`.
  - The copy-then-sort repetition loop of `main` is modelled too.

The array size `TAM_VETOR` is the array's length `n`. The value bound `TAM_MAX` is `maxV`, and `INICIO_INTERVALO` and `FIM_INTERVALO` are `lo` and `hi`. The sequence of `rand()` results is a stream `rand: nat -> nat`, with a cursor `k` naming the next draw. Every generator returns the cursor after its last draw, so every property holds for every stream.

Modules:

- `Sorting` defines sortedness, h-sortedness, distinctness, the count `CountLess(s, x)` of elements below `x`, the `CountLess` counting facts the cycle sort relies on, and the order, distinctness and permutation facts the Shell sort and the generators use.
- `Oracle` holds the random stream and the Fisher–Yates shuffle. It has a functional model `FisherYates` and the in-place loop `Shuffle`, which both files contain.
- `CycleSort` holds the cycle sort. Its methods mirror the C loops and are proved directly by loop invariants. The key notion is the *slot* of a value: the block of positions its copies occupy once the segment is sorted. Every write moves a value into its own slot over a value that was outside its slot. So the set of misplaced positions, `Misplaced`, shrinks by exactly one per write. This proves that the cycle-closing loop terminates, and that the number of swaps equals the number of input positions out of their slot.
- `CycleBench` holds `gerarVetor` and `executarExperimento`. The drift of types 1 and 2 is modelled by `DriftAfter`, the running value and draw cursor after `i` loop iterations.
- `ShellSort` holds the Shell sort.
  - `Sift`, `Pass` and `Shell` follow the shift loop, the index loop and the gap loop step by step, carrying both counters.
  - The method `ShellSort` keeps the three C loops, with the `continuar` flag. It is proved to produce exactly the array and counters of `ShellSortModel`.
  - Sortedness, permutation, h-sortedness after each pass and the counter bounds are lemmas about the model.
- `ShellBench` holds the shellSort.c helpers and the repetition loop of `main`.

The floating-point gap computation `k = floor(log(n+1)/log(3) + 0.5)` is replaced by exact integers. `RoundedLog3(m)` is the unique `k` with `3^(2k) <= 3 m^2 < 3^(2k+2)`. That window is `k - 1/2 <= log3(m) < k + 1/2` multiplied out, and the boundaries cannot be met exactly, because an odd power of 3 is never a square.

With `n = 10` the code computes `k = 2` and gaps 4 then 1, so a sorted 10-element input costs 6 + 9 = 15 comparisons (`ShellSort.TenElements`).

## Model

| member | source | states |
|---|---|---|
| `Oracle.Pick` | src/cycleSort.c:56 | the index drawn at step `i` of the shuffle lies in `[0, i]` |
| `Oracle.SwapFacts` | src/cycleSort.c:57-59 | exchanging two cells moves only those two cells and keeps the multiset |
| `Oracle.FisherYatesFromFacts` | src/cycleSort.c:55-60 | steps `i` down to 1 keep the multiset and never touch a position above `i` |
| `Oracle.FisherYatesPermutation` | src/cycleSort.c:53-61 | the shuffle keeps length and multiset, and changes nothing when `n <= 1` |
| `Oracle.FisherYatesStep` | src/cycleSort.c:55-60 | after step `i`, position `i` holds `s[Pick(rand(k), i)]` for good: the later steps never touch it |
| `Oracle.Shuffle` | src/cycleSort.c:53-61 | the in-place loop produces exactly `FisherYates` of the old contents, using one draw per step |
| `CycleSort.SlotsDisjoint` | src/cycleSort.c:121-126 | the slots of two different values never overlap |
| `CycleSort.MisplacedWrite` | src/cycleSort.c:134-137 | writing a value into its own slot over a misplaced value settles exactly that one position |
| `CycleSort.MisplacedShift` | src/cycleSort.c:117 | once a minimum sits at `c`, moving the cycle start to `c + 1` leaves the misplaced count unchanged |
| `CycleSort.NoMisplacedIffSorted` | src/cycleSort.c:113-161 | no position is misplaced if and only if the sequence is sorted |
| `CycleSort.SortedPermutationUnique` | src/cycleSort.c:121-128 | two sorted sequences with the same multiset are equal |
| `CycleSort.MisplacedBound` | src/cycleSort.c:113-161 | at most `n` positions are misplaced, which bounds the number of writes |
| `CycleSort.FullScanCost` | src/cycleSort.c:117-126 | the first scans of the `n - 1` cycle starts cost `n(n-1)/2` comparisons in total |
| `CycleSort.PrefixStep` | src/cycleSort.c:117-158 | a minimum of the tail placed at `c` extends the settled prefix by one, and the multiset is kept |
| `CycleSort.CountSmaller` | src/cycleSort.c:121-126 | `pos` ends at `c` plus the number of later elements smaller than `item`, after exactly one comparison per later element |
| `CycleSort.SkipCopies` | src/cycleSort.c:129-132 | the unguarded skip stops before `n`, inside the slot of `item`, on a value different from `item`, with one comparison per copy skipped |
| `CycleSort.SkipCopiesBounded` | src/cycleSort.c:149-152 | the guarded skip stops the same way; when the slot starts at `c` it skips nothing |
| `CycleSort.StartCycle` | src/cycleSort.c:129-137 | the first write puts the start value into its slot, after the run of its copies that starts at the scanned position, onto a different value. It keeps the multiset and settles one misplaced position |
| `CycleSort.CycleStep` | src/cycleSort.c:140-157 | one round rescans, skips the copies of `item` from the scanned position on, and writes `item` into its slot onto a different value. It settles one position, costs at least one full scan, and lands on `c` only with a minimum there |
| `CycleSort.CloseCycle` | src/cycleSort.c:139-158 | the cycle-closing loop terminates, leaves `v[..c]` unchanged and a minimum at `c`, keeps the multiset, and makes one write per settled position |
| `CycleSort.PlaceCycle` | src/cycleSort.c:118-159 | one cycle start leaves the prefix untouched and a minimum at `c`. It makes no write exactly when no later element is smaller, and then changes nothing and costs `n - 1 - c` comparisons |
| `CycleSort.CycleSort` | src/cycleSort.c:113-161 | the result is sorted and a permutation. Swaps equal the number of misplaced input positions and are at most `n` and at most the comparisons, and `2·comparisons >= n(n-1)`. A sorted input is unchanged, with 0 swaps and exactly `n(n-1)/2` comparisons |
| `CycleBench.HoldsDriftExtend` | src/cycleSort.c:71-72 | storing the next drift value extends the prefix the fill loop has written |
| `CycleBench.DriftStepInRange` | src/cycleSort.c:74-80 | one drift step from a value in `[0, maxV]` stays in `[0, maxV]` |
| `CycleBench.DriftInRange` | src/cycleSort.c:71-98 | a drift starting in `[0, maxV]` never leaves it |
| `CycleBench.DriftStepShape` | src/cycleSort.c:74-97 | a step moves by `1 .. maxV/n` in its direction, or lands in the restart band next to the bound |
| `CycleBench.DriftVectorFacts` | src/cycleSort.c:67-99 | every value of types 1 and 2 lies in `[0, maxV]`, and consecutive values are a step apart or the second lies in the restart band |
| `CycleBench.DriftStartRange` | src/cycleSort.c:69-86 | type 1 starts in `[0, maxV/10)` and type 2 starts in `(maxV - maxV/10, maxV]` |
| `CycleBench.DescendingReachesMax` | src/cycleSort.c:86 | type 2 produces `maxV` itself when the first draw is a multiple of `maxV/10` |
| `CycleBench.DriftUpProgression` | src/cycleSort.c:71-81 | with a constant step and no overflow, type 1 is an exact arithmetic progression |
| `CycleBench.AscendingReachesMax` | src/cycleSort.c:67-81 | type 1 also produces `maxV`: with `n = 11` and `maxV = 110`, a concrete stream makes value `p` equal to `10(p+1)`, so the values are 10, 20, …, 110 |
| `CycleBench.FillAscending` | src/cycleSort.c:67-82 | cell `p` holds the drift value after `p` steps from the type 1 start, and the cursor ends after the last draw |
| `CycleBench.FillDescending` | src/cycleSort.c:84-99 | the same for the type 2 drift |
| `CycleBench.FillUniform` | src/cycleSort.c:102-104 | cell `p` holds draw `k + p` reduced modulo `maxV` |
| `CycleBench.GenerateVector` | src/cycleSort.c:64-109 | dispatches on the type. Types 1 and 2 give the drifts, type 3 the shuffled uniform fill, and any other type leaves the array and the cursor alone |
| `CycleBench.UniformVectorFacts` | src/cycleSort.c:100-108 | type 3 values lie in `[0, maxV)` and are a permutation of the values filled before the shuffle |
| `CycleBench.RunCycleExperiment` | src/cycleSort.c:307-332 | every recorded repetition has `2·comparisons >= n(n-1)`, `0 <= swaps <= n` and `swaps <= comparisons` |
| `ShellSort.RoundedLog3` | src/shellSort.c:128-129 | the result `k` satisfies `3^(2k) <= 3(n+1)^2 < 3^(2k+2)`, the integer form of `floor(log3(n+1) + 0.5) == k` |
| `ShellSort.RoundedLog3Unique` | src/shellSort.c:128-129 | only one `k` satisfies that window |
| `ShellSort.KnuthStep` | src/shellSort.c:150 | `(h - 1)/3` maps the `m`-th increment `(3^m - 1)/2` to the `(m-1)`-th, and `h = 3h' + 1` |
| `ShellSort.InitialGapPositive` | src/shellSort.c:128-130 | the exponent and the first gap are at least 1 exactly when `n >= 1` |
| `ShellSort.KnuthGapSequence` | src/shellSort.c:130-150 | from the `m`-th increment the gaps visited are the increments for `m, m-1, …, 1`, ending with gap 1 |
| `ShellSort.TenElements` | src/shellSort.c:128-150 | for `n = 10`: `k = 2`, the gaps are 4 then 1, and a sorted input costs 15 comparisons |
| `ShellSort.SortedCostSum` | src/shellSort.c:133-149 | the sorted-input cost is the sum of `n - h` over the gaps `h < n` |
| `ShellSort.SiftPermutation` | src/shellSort.c:138-148 | the shift loop rearranges the array with `aux` put back into the hole |
| `ShellSort.SiftFrame` | src/shellSort.c:138-148 | the shift loop writes nothing above the index it started from |
| `ShellSort.PassPermutation` | src/shellSort.c:133-149 | a pass keeps the multiset |
| `ShellSort.ShellPermutation` | src/shellSort.c:132-151 | all passes together keep the multiset |
| `ShellSort.SiftOrder` | src/shellSort.c:138-148 | from an ordered hole state, the shift loop leaves every gap pair up to `i` in order |
| `ShellSort.PassOrder` | src/shellSort.c:133-149 | a pass keeps earlier gap pairs ordered and orders all later ones |
| `ShellSort.PassHSorted` | src/shellSort.c:132-149 | after the pass with gap `h` the array is h-sorted |
| `ShellSort.ShellSorted` | src/shellSort.c:132-151 | starting from a Knuth increment, the final pass has gap 1, so the result is sorted |
| `ShellSort.SiftCounts` | src/shellSort.c:138-146 | each shift costs one swap and one comparison. At most one more test is made, at least one when `j >= h`, and none when `j < h` |
| `ShellSort.PassCounts` | src/shellSort.c:133-149 | a pass adds one comparison per started index plus at most one per shift, and never more swaps than comparisons |
| `ShellSort.ShellCounts` | src/shellSort.c:132-151 | the same bounds summed over all gaps |
| `ShellSort.PassOnSorted` | src/shellSort.c:133-149 | on a sorted array a pass changes nothing, makes no swap and makes one comparison per started index |
| `ShellSort.ShellOnSorted` | src/shellSort.c:132-151 | on a sorted array all passes change nothing and cost `SortedCost` comparisons |
| `ShellSort.ShellSortCorrect` | src/shellSort.c:119-152 | the result is sorted and a permutation of the input |
| `ShellSort.ShellSortCounts` | src/shellSort.c:125-149 | counters start at 0, `0 <= swaps <= comparisons`, and `SortedCost <= comparisons <= SortedCost + swaps` |
| `ShellSort.ShellSortOnSorted` | src/shellSort.c:119-152 | a sorted input is unchanged, with 0 swaps and exactly `SortedCost` comparisons |
| `ShellSort.ShellSort` | src/shellSort.c:119-152 | the three nested loops yield exactly the array and both counters of `ShellSortModel` |
| `ShellBench.GeneratedAt` | src/shellSort.c:50-67 | cell `i` holds `lo + i` in the ascending vector and `hi - i` in the descending one |
| `ShellBench.IntervalCoverage` | src/shellSort.c:16-23 | for `n >= 1` the interval check passes if and only if the descending vector is the ascending one reversed. Then both cover exactly `[lo, hi]` |
| `ShellBench.GenerateAscending` | src/shellSort.c:50-58 | the array becomes `lo, lo + 1, …` |
| `ShellBench.GenerateDescending` | src/shellSort.c:60-67 | the array becomes `hi, hi - 1, …` |
| `ShellBench.GenerateRandom` | src/shellSort.c:69-83 | the array becomes the Fisher–Yates shuffle of the ascending vector, using `n - 1` draws |
| `ShellBench.RandomVectorFacts` | src/shellSort.c:69-83 | the random vector is a permutation of the ascending one. Its values are distinct, lie in `[lo, lo + n)`, and each value of that range occurs |
| `ShellBench.CopyVector` | src/shellSort.c:26-30 | the target becomes the source, and the source is unchanged |
| `ShellBench.RunShellTrials` | src/shellSort.c:270-278 | the original is never modified. Every repetition records the same counts, those of `ShellSortModel`, and the test copy ends sorted |

## Left out

- Menus, prompts, pauses and screen clearing are interactive I/O: `menu`, `confirmar`, `pausar`, `limpar_tela`, and the option switch of both `main` functions.
- `imprimirVetor`, `salvarResultados` and the timestamped file names are console and file output.
- `medirTempo`, `calcularMedia`, `calcularDesvioPadrao`, `calcularMediaComparacoes`, `calcularMediaTrocas` and `processarResultados` are floating-point statistics and clock readings. `clock_gettime` is dropped from both repetition loops.
- `srand` and `rand` themselves are not modelled. The stream is a parameter, and `RAND_MAX` does not bound it.
- `floor`, `log` and `pow` on `float` (src/shellSort.c:128-130) are replaced by exact integer rounding. Float rounding error for very large `n` is not modelled.
- The commented-out Knuth `3h+1` variant (src/shellSort.c:86-117) is dead code.
- src/gerar_graficos.py and src/graficos.py are plotting code over pandas and matplotlib.
- `int` and `long` overflow is not modelled: values and counters are unbounded integers. With a 64-bit `long`, or at the default `TAM_VETOR = 20000`, the counters stay far below the limits. With a 32-bit `long` (as on Windows, which the program supports through its `_WIN32` branch, src/cycleSort.c:16-20) and `TAM_VETOR = 60000`, the size suggested at src/cycleSort.c:8, `cycleSort`'s `comparacoes` overflows. There `TAM_MAX / TAM_VETOR` is 1, so type 2 never restarts and the count reaches about 3.15·10^9, above 2^31 − 1. The model does not capture that overflow.
- `CycleBench.RunCycleExperiment` allocates its own zero-filled array. The C array `vetor` is uninitialised, which matters only for a type outside 1–3, where `gerarVetor` writes nothing.
- `ShellBench.GenerateRandom`: its inline Fisher–Yates loop (src/shellSort.c:76-82) is the same loop as `shuffle` in src/cycleSort.c, so both programs use the one method `Oracle.Shuffle`.
- `Oracle.Shuffle` states its result as `FisherYates` of the old contents. That the shuffle is a permutation is stated in `Oracle.FisherYatesPermutation`, not in the method's own contract.
- The counter resets `*comparacoes = 0; *trocas = 0` of `cycleSort` (src/cycleSort.c:114-115) and of `shellSort` (src/shellSort.c:125-126) become method results that start at zero; the C out-arguments are not modelled as references.
