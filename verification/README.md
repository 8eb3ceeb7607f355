# SuperBench integer cores in Dafny

`bench.cpp` is a single-file C++ benchmark. Its `main` times six workloads, the last of which is the `big_data` loop in `main` itself. It prints one checksum per workload plus a total time. Three of the six workloads are floating-point code. This project models the three integer-only pieces and proves what they compute:

- **`blur(W, H)`**: a 3x3 convolution with the kernel `{{1,2,1},{2,4,2},{1,2,1}}`.
  - It runs over the interior pixels of an `H x W` image.
  - Each weighted sum is divided by 16 with C++ truncating division.
  - The quotient is stored in `out[y][x]` and added to `sum`.
  - The image is generalised to any `int` grid whose values are bounded by a ghost `bound`. Under that bound every `int` intermediate is proved to stay in 32 bits. The benchmark's constant-128 image is the special case `Blur`.
- **The bit-reversal loop of `fft(N)`**:
  - It keeps the counter `j` equal to the `log2 N`-bit reversal of `i`, updating it with the "carry from the top" `while` loop.
  - It swaps `x[i]` and `x[j]` when `i < j`.
  - It is modelled on a generic `array<T>` whose length is `2^bits`.
- **The `big_data` sum in `main`**: an 8 MiB static byte array whose first byte is 42, added up into an `unsigned long long`.

Files:

- `c_types.dfy` (module `CTypes`): the C++ types in use (`int`, `unsigned char`, `unsigned long long`) and truncating division.
- `convolution.dfy` (module `Convolution`): `blur`.
- `bit_reversal.dfy` (module `BitReversal`): the first half of `fft`.
- `big_data.dfy` (module `BigData`): the byte sum.

The specification functions describe the blur:

- `Weighted`: the 3x3 weighted sum at one pixel.
- `BlurAt`: one output pixel.
- `Blurred`: the whole output grid.
- `Total`: the sum of a grid.

The imperative methods keep the source's loops and are proved against these functions.

Two facts are carried by the method frames:

- `BlurGrid` has no `modifies` clause for `img`, so it cannot change the input image.
- `BitReverse` modifies only `x`.

## Model

| member | source | states |
|---|---|---|
| CTypes.TruncDiv | bench.cpp:99 | `acc / 16` rounds toward zero: for a non-negative dividend, q*16 <= acc < q*16+16; for a negative one, q*16-16 < acc <= q*16 |
| Convolution.Kernel | bench.cpp:91 | the kernel table is the outer product of (1,2,1) with itself |
| Convolution.KernelSumsTo16 | bench.cpp:91 | the nine kernel weights sum to 16 |
| Convolution.NeighbourhoodInBounds | bench.cpp:93-98 | for 1 <= y < H-1, 1 <= x < W-1 and ky, kx in {-1, 0, 1}, the read `img[y+ky][x+kx]` is inside the image |
| Convolution.WeightedExpanded | bench.cpp:95-98 | the accumulated `acc` of an interior pixel is the kernel-weighted sum of its nine neighbours, written out term by term |
| Convolution.Blurred | bench.cpp:90-101 | the output grid has the image's shape and is 0 on its one-pixel border |
| Convolution.AccBound | bench.cpp:95-98 | every partial value of `acc` is within 16 * bound when pixels are within bound, so `acc` never overflows |
| Convolution.BlurAtBound | bench.cpp:99 | each output pixel `acc / 16` is within the input bound |
| Convolution.UniformPixel | bench.cpp:95-99 | on a uniform image of value v, every interior output pixel is v |
| Convolution.UniformTotal | bench.cpp:89-103 | the output of a uniform image of value v sums to (H-2)*(W-2)*v, or 0 when a side is below 3 |
| Convolution.PrefixStep | bench.cpp:100 | `sum += out[y][x]` advances the row-major running total of the output by one pixel |
| Convolution.PrefixRowEnd | bench.cpp:93-101 | skipping the zero border pixels at the end of a row leaves the running total unchanged |
| Convolution.PrefixBound | bench.cpp:100 | every running value of `sum` is within (H-2)*(W-2)*bound, so `sum` never overflows |
| Convolution.WeightedSum | bench.cpp:95-98 | the two kernel loops leave in `acc` the weighted sum of the pixel's neighbourhood |
| Convolution.BlurRow | bench.cpp:94-101 | one pass of the x loop writes row y of the blurred image into `out` and adds that row to `sum`; other rows of `out` are unchanged |
| Convolution.BlurGrid | bench.cpp:88-104 | on any bounded image, `out` is the blurred grid (formula inside, 0 on the border) and the result is the sum of all entries of `out` |
| Convolution.Blur | bench.cpp:88-104 | `blur(W, H)` on the all-128 image returns (W-2)*(H-2)*128, or 0 when a side is below 3 |
| Convolution.BenchBlur | bench.cpp:124 | `blur(1024, 1024)` returns 133693952 |
| BitReversal.Rev | bench.cpp:55-65 | the `bits`-bit reversal of i is below 2^bits = n, so `j` always indexes the array |
| BitReversal.RevBit | bench.cpp:55-65 | bit t of the reversed counter is bit bits-1-t of i, for every t below bits |
| BitReversal.RevSnoc | bench.cpp:59-64 | reversing one more bit doubles the reversal and appends the next bit |
| BitReversal.RevInvolution | bench.cpp:57-58 | reversing twice gives back i, so the positions fall into pairs {i, rev(i)} |
| BitReversal.SwappedOnce | bench.cpp:57-58 | for each pair of distinct positions, exactly one of its two iterations takes the `i < j` branch, so every pair is swapped once |
| BitReversal.RevCarry | bench.cpp:59-62 | one round of the `while` loop: the top bit of j is set iff i is odd; clearing it turns the task into incrementing i/2 over one bit fewer; if it is clear, setting it yields rev(i+1) |
| BitReversal.CarryDone | bench.cpp:59-64 | when the `while` loop stops, `j += m` produces rev(i+1) |
| BitReversal.NextReversed | bench.cpp:59-64 | from j == rev(i), the `while` loop plus `j += m` produce rev(i+1), with 0 <= j < n throughout |
| BitReversal.SourceAdvance | bench.cpp:57-58 | iteration i moves only positions i and rev(i), exchanging their sources |
| BitReversal.SwapPermutes | bench.cpp:58 | `std::swap` of two entries permutes the sequence |
| BitReversal.Swap | bench.cpp:58 | `std::swap(x[i], x[j])` exchanges the two entries, leaves the others alone and permutes the array |
| BitReversal.PartialEnds | bench.cpp:55-65 | before the loop no sample has moved; after n iterations position k holds the sample that started at rev(k) |
| BitReversal.PartialStep | bench.cpp:57-58 | one iteration of the outer loop advances the array from its state after i iterations to its state after i+1 |
| BitReversal.BitReverse | bench.cpp:55-65 | afterwards x[k] == old x[rev(k)] for every k, and x is a permutation of its initial contents |
| BitReversal.ReorderedSamples | bench.cpp:50-65 | sample k of `fft` after the bit-reversal loop is (rev(k) % 256, 0) |
| BigData.Sum | bench.cpp:129 | a byte sum is between 0 and 255 times the number of bytes |
| BigData.AddMod | bench.cpp:129 | adding to an `unsigned long long` that has already wrapped gives the exact sum, wrapped |
| BigData.SumBytes | bench.cpp:128-129 | the loop's result is the byte sum modulo 2^64, and is exactly the byte sum when 255 * size < 2^64 |
| BigData.SumOfLeading | bench.cpp:10 | a byte array that is zero after its first byte sums to its first byte |
| BigData.NewBigData | bench.cpp:10 | `big_data` starts as 8 * 1024 * 1024 bytes: 42 followed by zeros |
| BigData.BigDataSum | bench.cpp:128-129 | the BigDataSum value printed by `main` is 42 |

## Left out

- `mandelbrot` (bench.cpp:13-31): its iteration uses `std::complex<double>` and `abs`, which is floating-point numerics.
- `matmul` (bench.cpp:34-47): its matrices hold doubles and its result casts a double checksum to `int`.
- FFT butterfly stages and checksum (bench.cpp:67-84): complex `std::exp` twiddle factors and `std::abs` magnitudes, all floating point.
  - `__builtin_ctz(N)` only counts those stages, so it is left out with them.
- `sort_bench` (bench.cpp:107-113): `std::mt19937` and `std::sort` are library code not part of this model.
- The timing with `std::chrono` and the printing with `std::cout` in `main` (bench.cpp:115-141) are I/O and clocks.
- BlurGrid and Blur: signed `int` overflow is undefined behaviour in C++.
  - The model does not give overflow a meaning. Instead it requires a pixel bound under which no overflow happens: 16 * bound and (H-2)*(W-2)*bound fit in `int`.
  - For `blur` itself this means (W-2)*(H-2)*128 <= 2^31 - 1.
- Blur: W and H must be non-negative. For a negative size the `std::vector` constructor throws, and the exception path is not modelled.
- BlurGrid: the images are `array2` values rather than vectors of vectors. The row vectors of `img` and `out` cannot alias, which the distinct arrays express.
- BitReverse and ReorderedSamples: the array length must be a power of two. `fft` is only called with N = 2048, and for other N the loop is not a bit-reversal.
  - The indices `i`, `j` and `m` are unbounded integers; all of them stay below n, which is an `int`.
- ReorderedSamples: a `std::complex<double>` sample is represented by a pair of integers. The samples `(i % 256, 0)` have whole-number parts, and the bit-reversal loop only moves them.
