# STFT frame-grid zero padding

This project models the zero-padding step of a Griffin-Lim / ADMM phase-recovery
script. Before the magnitude spectrogram is computed, the time signal is extended
with zeros so that its length lies on the STFT frame grid. The grid uses a window
of `winLen = 2**9 = 512` samples and a hop of `shiftLen = 2**8 = 256` samples.

For a signal of `lf` samples, the helper `stft_zero_padd` picks the hop count
`T = ceil((lf - winLen) / shiftLen)`. It pads to `lf_new = winLen + T * shiftLen`
samples by appending `lf_new - lf` zeros, and returns the padded signal with `lf_new`.

The Dafny module `StftPadding` (file `stft_padding.dfy`) models this step as pure functions:

- A `FrameGrid` pairs a window length with a positive hop length.
- `Stft` is the script's grid `(512, 256)`.
- `Ceil` is the ceiling of a real number.
- `FrameCount` is `T`, computed on the exact quotient as the source writes it.
- `PaddedLength` is `lf_new`.
- `ZeroPad` returns the padded signal and its length as a `Padded` value.

The operations take the grid as a parameter. The script reads `winLen` and `shiftLen` as module-level constants, so here the grid is passed in explicitly. The source's behaviour is the instance `Stft`. Samples are `real`.

The lemmas prove the following:

- Padding lands on the frame grid.
- It never shortens the signal.
- It adds fewer than `shiftLen` samples, and the result is the smallest grid length that covers the signal.
- It keeps the original samples and appends only zeros.
- It is idempotent.
- Because `T` is not clamped at zero, short signals are padded to a length below the window.

## Model

| member | source | states |
|---|---|---|
| StftPadding.Ceil | phase-recovery.py:66 | the result `c` is the least integer not below `x`: `c - 1 < x <= c` |
| StftPadding.FrameCount | phase-recovery.py:66 | `T` is the least integer with `lf <= winLen + T*shiftLen`; it may be negative |
| StftPadding.PaddedLength | phase-recovery.py:66-67 | `lf_new` is at least `lf`, exceeds it by less than `shiftLen`, and is `winLen` plus a whole number of hops |
| StftPadding.Zeros | phase-recovery.py:68 | `np.zeros(k)`: exactly `k` elements, every one of them 0 |
| StftPadding.ZeroPad | phase-recovery.py:64-69 | the returned array has exactly `lf_new` elements, equal to the returned length; its first `lf` elements are the input in order; every appended element is 0; the length is on the frame grid and grows by less than `shiftLen` |
| StftPadding.FrameCountIsCeilDiv | phase-recovery.py:66 | the ceiling of the real quotient equals integer ceiling division `(lf - winLen + shiftLen - 1) div shiftLen` |
| StftPadding.PaddingIsMinimal | phase-recovery.py:66-67 | every grid length `winLen + t*shiftLen` that covers `lf` has `t >= T` and is at least `lf_new`, so the padding is minimal |
| StftPadding.PaddedLengthAt | phase-recovery.py:66-67 | if `winLen + (t-1)*shiftLen < lf <= winLen + t*shiftLen`, then `T == t` and `lf_new == winLen + t*shiftLen` |
| StftPadding.PaddedLengthOnGrid | phase-recovery.py:66-67 | a length already on the frame grid is returned unchanged |
| StftPadding.ZeroPadIdempotent | phase-recovery.py:64-69 | padding an already padded signal appends nothing and returns the same length |
| StftPadding.ShortSignalsPadBelowWindow | phase-recovery.py:52-53 | on the 512/256 grid, with `T` unclamped (lines 66-67), a length in `1..256` pads to 256 (below the window) and length 0 pads to 0; 100 pads to 256 |
| StftPadding.PaddedLengthPastWindow | phase-recovery.py:66-67 | on the 512/256 grid, length 513 pads to 768 |
| StftPadding.PaddedLengthOf10000 | phase-recovery.py:66-67 | on the 512/256 grid, length 10000 pads to 10240 |

## Left out

- FrameCount: the quotient `(lf - winLen) / shiftLen` is a 64-bit float in the source. The model uses an exact rational. The two agree whenever `lf - winLen` converts to a float exactly, which holds for every length up to 2^53. Beyond that, rounding is not modelled.
- ZeroPad: the model works on `real` samples. It does not model numpy dtypes, such as a float32 input becoming a float64 result after concatenation with `np.zeros`.
- Loading `target.wav` and the missing-file message are file I/O.
- The `STFT`/`iSTFT` wrappers and every call to them are thin wrappers over librosa, whose source is not part of this model.
- `mysign` relies on complex `exp`/`angle` in floating point.
- `gla` and `admm_gla` are iterative complex floating-point numerics. Every step goes through the external STFT round trip, so they are not modelled.
- Random-phase initialisation uses numpy's global RNG state and floats.
- The magnitude `np.abs(c)` of the spectrogram is floating-point arithmetic on library output.
