# FTSliceDecoder and the HetVAE helpers, in Dafny

This project models the core of `lib-python/models.py`: the decoder that turns
a central slice of a 3-D Fourier volume into a Hartley-space image, and the
small helpers of `HetVAE` and `SO3reparameterize` around it.

The decoder evaluates a learned network on only half of a D x D frequency
lattice. It fills the other half from the conjugate symmetry F(-p) = conj F(p)
of the transform of a real volume. The model covers three parts of the file:

- **The index sets of `FTSliceDecoder.__init__`** (module `SliceIndex`).
  `center`, `extra`, `all_eval`, `top` and `bottom_rev` are built as numpy
  builds them: `arange`, a row-major `meshgrid` + `ravel`, `[:-D2]`,
  `[D2:][::-1]`. Lemmas then give their closed forms, their order and their
  sizes. They also prove the properties the scatter relies on:
  - `all_eval` and `bottom_rev` partition the D² pixels;
  - `bottom_rev[k]` is the point reflection of `top[k]` through the centre pixel;
  - `top` reads the decoded rows at their own pixel numbers.
  `PixelArith` holds the row-major division and remainder lemmas these proofs use.
- **`decode`, `forward` and `forward_symmetric`** (class
  `SliceDecoder.FTSliceDecoder`), as methods over arrays.
  - `Decode` takes the mask z > 0 first. It negates the masked rows in place,
    applies the network to every row, and negates the imaginary channel of the
    masked rows.
  - `Forward` gathers a copy of the `all_eval` rows, decodes it and scatters the
    results. It is proved to produce `SymmetricImage`, the image defined pixel
    by pixel. It leaves the caller's lattice alone.
  - `ForwardSymmetric` decodes rows 0..c of the caller's buffer in place, as the
    view in the source does. It is proved to produce `SymmetricStrip`.
  - For a network that has the symmetry and a lattice symmetric about its centre,
    both images equal evaluating the network at every pixel.
- **`HetVAE.cat_z`, `encode` and `reparameterize`** (module `HetVAE`) and
  **`SO3reparameterize.sampleSO3`** (module `SO3Reparameterize`), as pure functions.
  - Evaluation mode is a parameter.
  - The training noise is passed in as `eps`.
  - `torch.exp`, `lie_tools.expmap` and the networks are function parameters.

Some members are helpers without a row of their own:

- `SliceIndex.Half` is `int(D/2)` of `models.py:91`, for D ≥ 1.
- `SliceIndex.MirrorStoreRuns` is torch's condition for the store of
  `models.py:134` to go through: equal lengths, or a single value to broadcast.
  `MirrorStoreRunsExactly` says when it holds.
- `SliceDecoder.Masked` is the mask `lattice[...,2] > 0.0` of `models.py:140`,
  used by `Fold` and `DecodedAt`.
- `SliceDecoder.Conj` is the complex conjugate that `models.py:143` applies
  by negating the imaginary channel.
- `SliceDecoder.Hartley` is re - im, the value `models.py:132` stores.
- `SliceDecoder.EvaluatedPixel` and `SliceDecoder.MirroredPixel` give the value
  of one pixel after the two stores of `models.py:132-134`; they are the
  steps of `ScatteredImage`.
- `SO3Reparameterize.MatMul` is the `@` of `models.py:385`, whose unit law is
  `MatMulIdentity`.

The learned decoder `ResidLinearDecoder` is a parameter `decoder: seq<real> -> Spectrum`.
It is a stack of linear layers and ReLUs applied to each row separately, so a
batch of rows is decoded row by row. Reals stand in for floating point.

Three behaviours of the code are worth stating, because they are easy to miss:

- `decode` negates the coordinates of the masked rows in the buffer it is given
  (`models.py:141`). In `forward` that buffer is a gathered copy, so the caller
  sees nothing. In `forward_symmetric` it is a basic slice, a view, so the
  caller's rows 0..c are changed. `ForwardSymmetric` states this in its
  `modifies` and `ensures`.
- In evaluation mode `sampleSO3` returns `(z_mu, z_std)`, the standard deviation
  itself, not a zero tangent (`models.py:380-381`). `SampleSO3ZeroNoise` shows
  that a zero tangent comes from training mode with zero noise.
- The constructor does not reject odd D: the index sets are built. Whether the
  store of line 134 then runs is settled by `MirrorStoreRunsExactly`: it runs
  exactly for even D, D = 1 and D = 3.
  - For odd D ≥ 5, `bottom_rev` has D - 1 more entries than `top`, and the store
    raises a shape error (`OddSizesMismatch`).
  - For D = 3, `top` is [4] and `bottom_rev` is [8, 7, 5] (`ThreeByThree`). torch
    broadcasts the single value, so pixels 8, 7 and 5 all get re + im of the
    centre pixel instead of the values of their reflections 0, 1 and 3
    (`ThreeByThreeBroadcast`, `ThreeByThreeImage`, and the finding below).
  - For D = 1, `top` and `bottom_rev` are empty and forward returns the one
    decoded pixel (`OneByOne`).

  `ForwardAsWritten` models the two stores for every D where they run; the
  method `Forward` is proved for even D, where it equals `ForwardAsWritten`
  (`ForwardAsWrittenIsSymmetricImage`).

## Model

| member | source | states |
|---|---|---|
| SliceIndex.Arange | lib-python/models.py:99-108 | `np.arange(lo, hi)`: hi - lo entries when lo < hi and none otherwise, entry k being lo + k. |
| SliceIndex.ArangeStep | lib-python/models.py:95 | `np.arange(lo, hi, step)` for step > 0: ⌊(hi - lo - 1)/step⌋ + 1 entries when lo < hi and none otherwise, entry k being lo + k·step. |
| SliceIndex.MeshRavel | lib-python/models.py:103-109 | `(j*D+i).ravel()` over `meshgrid(xs, ys)` has len(ys)·len(xs) entries (its entries are given by MeshRavelAt). |
| SliceIndex.MeshRavelAt | lib-python/models.py:103-109 | Entry a·len(xs)+b of the ravel is ys[a]·D + xs[b]: row-major order, one run of xs per entry of ys. |
| SliceIndex.DropLast | lib-python/models.py:104 | `s[:-k]`: the first len(s) - k entries, and nothing at all when k = 0 (Python's `[:-0]` is empty) or when k ≥ len(s). |
| SliceIndex.DropFirst | lib-python/models.py:109 | `s[k:]`: len(s) - k entries (none when k ≥ len(s)), entry i being s[k+i]. |
| SliceIndex.Reverse | lib-python/models.py:109 | `s[::-1]`: same length, entry i of s moved to position len(s) - 1 - i. |
| SliceIndex.Center | lib-python/models.py:94 | `center` is a pixel of the D x D grid for every D ≥ 1. |
| SliceIndex.Extra | lib-python/models.py:95 | `extra` has D - 1 - D2 entries, and entry t is (D2 + 1 + t)·D: the left-column pixel of row D2 + 1 + t. |
| SliceIndex.AllEval | lib-python/models.py:99 | `all_eval` has center + D - D2 entries, and its entry t is t for every t ≤ center. |
| SliceIndex.Top | lib-python/models.py:103-104 | `top` has D2·(D - 2) entries, for every D ≥ 1. |
| SliceIndex.BottomRev | lib-python/models.py:108-109 | `bottom_rev` has (D - D2)·(D - 1) - D2 entries, for every D ≥ 1. |
| SliceIndex.CenterPixel | lib-python/models.py:91-94 | `center = D2*D + D2` is pixel (D2, D2). It is its own point reflection, and twice it is D² + D. |
| SliceIndex.ExtraMembers | lib-python/models.py:95 | `extra` is strictly increasing. It holds exactly the left-column pixels of rows D2+1..D-1, which are exactly the left-column pixels after `center`. The reflection of each lies in column 0 and is not in `top`. |
| SliceIndex.ExtraUnpaired | lib-python/models.py:95-109 | The reflection of every `extra` pixel lies in column 0, so it is not in `top`: these pixels have no partner and must be evaluated. |
| SliceIndex.AllEvalMembers | lib-python/models.py:94-99 | `all_eval` has center + D2 entries and is strictly increasing. It holds exactly the pixels up to `center` plus the left-column pixels after it. Its entry t is t for every t ≤ center. |
| SliceIndex.TopLength | lib-python/models.py:103-104 | `top` has (D2 - 1)·D entries. |
| SliceIndex.BottomRevLength | lib-python/models.py:108-109 | `bottom_rev` has (D2 - 1)·D entries. |
| SliceIndex.TopAt | lib-python/models.py:103-104 | Entry a·(D-1)+b of `top` is pixel (a+1, b+1): the ravelled meshgrid in row order, with the last D2 entries dropped. |
| SliceIndex.BottomRevAt | lib-python/models.py:108-109 | Entry a·(D-1)+b of `bottom_rev` is pixel (D-1-a, D-1-b): the ravelled meshgrid of rows D2..D-1, without its first D2 entries, reversed. |
| SliceIndex.TopMembers | lib-python/models.py:101-104 | x is in `top` exactly when D ≤ x < center and x is not in column 0. These are the pixels before the centre, off the top row and the left column. |
| SliceIndex.BottomRevMembers | lib-python/models.py:106-109 | x is in `bottom_rev` exactly when center < x < D² and x is not in column 0. |
| SliceIndex.TopIncreasing | lib-python/models.py:103-104 | `top` is strictly increasing. |
| SliceIndex.BottomRevDecreasing | lib-python/models.py:108-109 | `bottom_rev` is strictly decreasing. |
| SliceIndex.MirrorPairs | lib-python/models.py:103-109 | The two sets have equal length, and bottom_rev[k] = D·(D+1) - top[k]. With top[k] = (r, c), where 1 ≤ r and 1 ≤ c, bottom_rev[k] is (D-r, D-c), the reflection through the centre pixel. |
| SliceIndex.Partition | lib-python/models.py:94-109 | x is in `all_eval` or `bottom_rev` exactly when 0 ≤ x < D². No pixel is in both, and their concatenation has no repeats and exactly D² entries. |
| SliceIndex.TopReadsItself | lib-python/models.py:99-104 | Every `top` entry is below `center`, so all_eval[top[k]] = top[k]. Indexing the decoded rows by `top` reads the values decoded for those very pixels. |
| SliceIndex.OddSizesMismatch | lib-python/models.py:103-109 | For odd D ≥ 3, `bottom_rev` has D - 1 more entries than `top`. |
| SliceIndex.MirrorStoreRunsExactly | lib-python/models.py:134 | The store of line 134 runs (equal lengths, or a single value to broadcast) exactly when D is even, D = 1 or D = 3. |
| SliceIndex.ThreeByThree | lib-python/models.py:91-109 | For D = 3: center is 4, all_eval is [0, 1, 2, 3, 4, 6], top is [4] and bottom_rev is [8, 7, 5]. |
| SliceIndex.FourByFour | lib-python/models.py:91-109 | For D = 4: center is 10, all_eval is 0..10 followed by 12, top is [5, 6, 7, 9] and bottom_rev is [15, 14, 13, 11]. |
| SliceDecoder.FTSliceDecoder.constructor | lib-python/models.py:87-112 | For D ≥ 1, the fields are D, D2 = D/2 and the five index sets of D. |
| SliceDecoder.FTSliceDecoder.Decode | lib-python/models.py:137-144 | Rows 0..n-1 with z > 0 (strictly) are negated in their first three components, in place. Every other row is unchanged. result[i] is the network's value at the folded row, conjugated exactly when row i was masked. |
| SliceDecoder.FTSliceDecoder.FoldRows | lib-python/models.py:140-141 | The mask is taken from the rows before any change. The masked rows are folded in place and the rest are unchanged. |
| SliceDecoder.FTSliceDecoder.Evaluate | lib-python/models.py:142 | A fresh result holding the network's value for each row. |
| SliceDecoder.FTSliceDecoder.ConjugateMasked | lib-python/models.py:143 | Masked entries are conjugated in place. The others are unchanged. |
| SliceDecoder.Negate | lib-python/models.py:141 | The point -p: x, y and z negated, the latent part and the length kept. |
| SliceDecoder.Fold | lib-python/models.py:140-141 | A row after the masked negation: never has z > 0, and is the row itself or its negation. |
| SliceDecoder.DecodedAt | lib-python/models.py:140-143 | The decoded value of a row is the network at the folded row, conjugated exactly when z > 0. |
| SliceDecoder.FoldLowerHalf | lib-python/models.py:139-141 | After folding no row has z > 0. The row's length and latent part are kept, its x and y are kept or both negated, and rows with z ≤ 0 (z = 0 included) are untouched. Folding twice equals folding once. |
| SliceDecoder.NegateTwice | lib-python/models.py:141 | Negating the three spatial components twice gives the row back. |
| SliceDecoder.ConjugatePair | lib-python/models.py:139-143 | For z ≠ 0, a point and its negation decode to complex conjugates. |
| SliceDecoder.HermitianDecodesExactly | lib-python/models.py:137-144 | For a network with f(-p) = conj f(p), decode returns f(p) itself. |
| SliceDecoder.FTSliceDecoder.Forward | lib-python/models.py:128-135 | For even D and a D²-row lattice, the fresh image is `SymmetricImage`: re - im of the decoded value at each `all_eval` pixel, and re - im of the conjugate of the decoded value at its reflection elsewhere. The lattice is not modified. |
| SliceDecoder.FTSliceDecoder.DecodeEvaluated | lib-python/models.py:131 | The decoded rows of `all_eval`, in order, computed on a fresh copy of the rows. |
| SliceDecoder.FTSliceDecoder.Assemble | lib-python/models.py:130-134 | The two scatters into a fresh buffer give `SymmetricImage`. |
| SliceDecoder.Gather | lib-python/models.py:131 | A fresh array of the rows at the given indices. |
| SliceDecoder.ScatterEvaluated | lib-python/models.py:132 | Every listed pixel receives re - im of its row, and every other pixel keeps its value. |
| SliceDecoder.ScatterMirrored | lib-python/models.py:134 | Pixel dst[k] receives re + im of row src[k], and every other pixel keeps its value. |
| SliceDecoder.ForwardIndices | lib-python/models.py:94-109 | The facts the scatters need: all indices are pixels, `all_eval` and `bottom_rev` are disjoint and each is free of repeats, and `top` addresses the decoded rows. |
| SliceDecoder.ScatteredImage | lib-python/models.py:130-134 | The two scatters set every one of the D² pixels to its `SymmetricImage` value. |
| SliceDecoder.SymmetricImageIsFullEvaluation | lib-python/models.py:128-135 | For a symmetric network on a lattice symmetric about the centre pixel, forward's image equals evaluating the network at every pixel. |
| SliceDecoder.FTSliceDecoder.ForwardSymmetric | lib-python/models.py:114-126 | For a (2c+1)-row strip, image[i] is re - im of decoded row i for i ≤ c, and re + im of decoded row 2c - i above c. Rows 0..c of the caller's lattice are folded in place, and the others are unchanged. |
| SliceDecoder.StripFromHalf | lib-python/models.py:121-125 | Positions 0..c hold re - im of the c+1 decoded rows. Position c+1+k holds re + im of row c-1-k, so each pair of positions sums to 2c. |
| SliceDecoder.SymmetricStripIsFullEvaluation | lib-python/models.py:114-126 | For a symmetric network on a strip whose row 2c - i is the negation of row i, the strip equals evaluating the network at every row. |
| SliceDecoder.OddGridStripIsFullEvaluation | lib-python/models.py:114-126 | For odd D, 2·center + 1 = D², and the strip with c = center equals evaluating a symmetric network at every pixel of a lattice symmetric about its centre. |
| SliceDecoder.Store | lib-python/models.py:132-134 | torch's indexed store `image[..., idx] = vals`, one pixel after another: the image keeps its size (what each pixel ends up holding is StoreAt). |
| SliceDecoder.Scatter | lib-python/models.py:130-134 | Lines 130-134 on decoded rows: re - im stored at the evaluated pixels of a zero buffer, then re + im of the rows the top indices address stored at the mirrored pixels, broadcast when single; the image has n pixels (its pixels are ScatterEvaluatedPixels and ScatterMirroredPixels). |
| SliceDecoder.EvaluatedRows | lib-python/models.py:131 | `decode(lattice[..., idx, :])` row by row: one value per index, entry t being the decoded value of row idx[t]. |
| SliceDecoder.StoreAt | lib-python/models.py:132-134 | An indexed store with no repeated index puts each value at its pixel and leaves every other pixel alone. |
| SliceDecoder.Broadcast | lib-python/models.py:134 | torch's broadcast in a store: n values, each the single given value or the value at the same position. |
| SliceDecoder.ScatterEvaluatedPixels | lib-python/models.py:132-134 | After both stores, each pixel of the first index set holds re - im of its row. |
| SliceDecoder.ScatterMirroredPixels | lib-python/models.py:134 | After both stores, pixel B[k] holds re + im of the row T[k] addresses, or T[0] when T has one entry. |
| SliceDecoder.ForwardAsWritten | lib-python/models.py:128-135 | forward as torch runs it, for every D where the store of line 134 runs: a D²-pixel image (its pixels are given by ForwardAsWrittenPixels). |
| SliceDecoder.ForwardAsWrittenPixels | lib-python/models.py:130-134 | Each `all_eval` pixel holds re - im of its decoded row, and bottom_rev[k] holds re - im of the conjugate of the row top[k] addresses, or top[0] when top has a single entry. |
| SliceDecoder.ForwardAsWrittenIsSymmetricImage | lib-python/models.py:128-135 | For even D the store runs and forward as written is `SymmetricImage`, the image the method `Forward` is proved to build. |
| SliceDecoder.OneByOne | lib-python/models.py:128-135 | For D = 1 the store runs and the image is the single decoded pixel. |
| SliceDecoder.SingleTopBroadcast | lib-python/models.py:134 | When `top` has one entry, every `bottom_rev` pixel gets re + im of the row that entry addresses. |
| SliceDecoder.ThreeByThreeBroadcast | lib-python/models.py:134 | For D = 3, pixels 8, 7 and 5 all get re + im of the decoded centre row. |
| SliceDecoder.BroadcastDiffers | lib-python/models.py:134 | For D = 3, Wave on a lattice with the origin at the centre and (1, 1, 0) at pixel 8: forward gives 1 at pixel 8, where evaluating the network gives 0. |
| SliceDecoder.ThreeByThreeImage | lib-python/models.py:134 | On the 3 x 3 lattice Ramp, forward gives 1 at pixel 8, while the full evaluation, which the strip with c = center matches, gives 0. |
| HetVAE.CatZ | lib-python/models.py:64-68 | Three checks decide whether it succeeds: every row has 3 coordinates, every image one latent value, and the latent batch matches or is 1. On success each row is its coordinates followed by its image's latent value. |
| HetVAE.CatZRows | lib-python/models.py:64-68 | Each output row has 4 entries. Its first three are the input row, and its fourth is the same for every pixel of an image. |
| HetVAE.CatZVector | lib-python/models.py:64-68 | The corrected cat_z: each row is followed by the image's whole latent vector of width z_dim, giving 3 + z_dim entries. |
| HetVAE.CatZVectorExtendsCatZ | lib-python/models.py:64-68 | For z_dim = 1 the corrected cat_z equals the written one, failures included. |
| HetVAE.CatZRejectsWideLatent | lib-python/models.py:64-68 | With z_dim = 2, the written cat_z fails where the corrected one returns the 5-entry row. |
| HetVAE.SliceStop | lib-python/models.py:62 | Where the slice bound z_dim cuts a row, with Python's clamping and counting from the end. |
| HetVAE.Encode | lib-python/models.py:60-62 | One (mu, logvar) row pair per encoder row. mu has the slice-bound length. |
| HetVAE.EncodeSplits | lib-python/models.py:60-62 | mu ++ logvar is the encoder's row. For rows of 2·z_dim values, each half has z_dim. |
| HetVAE.Reparameterize | lib-python/models.py:53-58 | Evaluation mode returns mu unchanged, and the length is that of mu. |
| HetVAE.ReparameterizeAroundMean | lib-python/models.py:53-58 | In training each value sits eps·exp(logvar/2) from the mean. For a positive exp, a value lies above or on its mean exactly when its noise is positive or zero. Zero noise gives the evaluation result. |
| SO3Reparameterize.SampleSO3 | lib-python/models.py:373-386 | Evaluation mode returns (z_mu, z_std) unchanged. Training mode returns the tangent w = eps ⊙ z_std as the second component. |
| SO3Reparameterize.SampleSO3ZeroNoise | lib-python/models.py:373-386 | If expmap(0) is the identity, training with zero noise gives (z_mu, 0), while evaluation gives (z_mu, z_std). |
| SO3Reparameterize.MatMulIdentity | lib-python/models.py:385 | The identity rotation is a right unit of the matrix product `@`, so `z_mu @ expmap(0)` is `z_mu` when expmap(0) is the identity. |

## Left out

- The neural networks (`ResidLinearDecoder` and the encoders) are function parameters. Their float weights and layers are not modelled.
- Reals stand in for float32/float64. The `.float()`/`.double()` casts are not modelled.
- Leading batch dimensions of the decoder tensors are not modelled; the decoder is modelled on one image. Every operation there acts pixel by pixel, so the batch adds nothing.
- `torch.empty` leaves the image buffer uninitialised. The model zero-initialises it, and the postconditions of `Forward` and `ForwardSymmetric` fix every pixel, so the initial contents cannot show.
- SliceDecoder.FTSliceDecoder.Forward: requires an even D and exactly D² rows. With odd D ≥ 5 the source raises a shape error at line 134 (`OddSizesMismatch`). D = 3 and D = 1 are modelled by `ForwardAsWritten` instead (`ThreeByThreeImage`, `OneByOne`). With more rows, the pixels beyond D² stay uninitialised in the source.
- SliceDecoder.FTSliceDecoder.ForwardSymmetric: requires exactly 2c + 1 rows. With more rows, the store at line 125 raises a shape error for c = 0 and c ≥ 2, and for c = 1 torch broadcasts the single value to every row after row 1. With fewer rows, line 125 mostly raises an index or shape error. Those shapes are not modelled.
- SliceDecoder.FTSliceDecoder.constructor: requires D ≥ 1. With D = 0, `np.arange(..., 0)` raises. Negative D is not modelled.
- HetVAE.CatZ: models coordinate tensors of rank 3 (batch x pixels x 3), the rank `HetVAE.forward` passes. Other ranks are not modelled.
- `HetVAE.forward` (lines 70-77) is not modelled. It rotates the lattice with a float matrix product, then composes `cat_z` with the decoder.
- `HetVAE.__init__` (lines 15-51): the choice of encoder class, and the error for an unknown mode, are not modelled. Its other step, building the decoder `FTSliceDecoder(3+z_dim, lattice.D, ...)` at line 49, is modelled by `SliceDecoder.FTSliceDecoder.constructor` for that D, with the network as a parameter.
- `SO3reparameterize.forward` and `lie_tools` are not modelled. `expmap` is a parameter of `SampleSO3`, and `SampleSO3` works on one sample rather than a batch.
- `torch.exp` and `torch.randn_like` are not modelled. `exp` is a parameter, and the draw is the explicit noise `eps`.
- `bnb_het.py` is not part of this model: it is argument parsing, file I/O, FFTs and the training loop.

## Findings

| source | as written | input that shows it | evidently intended | confidence | as-written member | corrected member |
|---|---|---|---|---|---|---|
| lib-python/models.py:66-67 | `z.view(B, 1, 1)` and `expand(..., 1)` accept one latent value per image only, while the decoder is built for 3 + z_dim inputs (line 49) | z_dim = 2: coords `[[[0,0,0]]]`, z `[[1,2]]` makes cat_z raise | append the image's whole latent vector, giving 3 + z_dim entries per row | medium, not executed | HetVAE.CatZ, HetVAE.CatZRejectsWideLatent | HetVAE.CatZVector, HetVAE.CatZVectorExtendsCatZ |
| lib-python/models.py:134 | for D = 3, `top` has one entry and `bottom_rev` three, and torch broadcasts the one value to all three pixels | Wave (re 1, im x) on Ramp, the 3 x 3 lattice of (col - 1, row - 1, 0): forward puts 1 at pixel 8, where the network evaluated there gives 0 | reject odd D, or fill each pixel x after the centre from pixel D² - 1 - x, as forward_symmetric with c = center does | medium, not executed | SliceDecoder.ForwardAsWritten, SliceDecoder.ThreeByThreeImage | SliceDecoder.OddGridStripIsFullEvaluation |
