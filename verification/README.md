# Verified model of the LED controller firmware

A Dafny model of the logic in this Matter firmware that can go wrong silently, and proofs of what it
promises: the P-256 crypto driver, the libc `rand` replacement, the HAL's critical sections, the LED
fade and its attribute cache, the BLE memory hand-over with the two-bank heap behind it, the colour
conversion, and the factory-reset button.

| file | models |
|---|---|
| `Modular.dfy`, `Curve.dfy` | residues and inverses; chord-and-tangent addition over F_p, closure, scalar multiplication |
| `ByteOrder.dfy`, `Psa.dfy` | byte strings as numbers, the byte helpers; PSA types, randomness, bignum calls |
| `EcdsaSpec.dfy` | ECDSA and ECDH as SEC 1 v2.0 states them, the driver's promised outcomes, the theorems over them |
| `EccDriver.dfy`, `Secp256r1.dfy` | the driver entry points, each proved to compute its outcome; the stored domain parameters |
| `RandShim.dfy` | the 32-bit generator behind `rand` |
| `CriticalSection.dfy` | the recursion-safe macros, the older ones, and interrupts at every step |
| `Fade.dfy`, `Lighting.dfy`, `ColorMath.dfy` | the fade as two interleaved threads, the cache and its callbacks, the colour arithmetic |
| `SysHeapMalloc.dfy`, `BtReclaim.dfy` | the two-bank allocator; the reclaim state machine that feeds it |
| `FactoryReset.dfy` | the button handler over timed traces |
| `Wrappers.dfy` | the option type |

Code that updates state is a class or a method over arrays, with a contract that ties the new state to
a function of the old one; the theorems are lemmas about those functions. Interleavings are state
machines whose steps are single memory accesses, and the lemmas speak of every run.

What is assumed, always as a parameter or a `requires`, never as an axiom:

* `Curve.Lawful`: p and n are prime, point addition is associative on the curve, and every curve point
  times n is infinity (SEC 1 v2.0, section 3.1.1.2.1, with cofactor 1). Closure of the addition, the
  base point being on the curve and the numeric value of every stored constant are proved.
* `EccDriver.EngineCorrect`: the engine multiplies curve points whose product is affine, and refuses
  points off the curve when asked to verify. Otherwise it may answer anything.
* `SysHeapMalloc.Sound`: a backing heap grants aligned room of its own region clear of its live blocks,
  or refuses. Every such allocator is covered.
* `ColorMath.IsGammaPower`: the power function is x^(5/12) on [0, 1].
* Bignum calls are exact. Which of them find no memory is an arbitrary pattern fixed beforehand, and so is
  the endless sequence of random draws; contracts say what happens when no call of a run was refused.

Where code and comments disagree, the model follows the code. The comment on priming says the cache
cannot start out disagreeing with the data model; `Lighting.RgbPrimingAgrees` gives the exact condition
under which that is so in the RGB build, where priming always selects colour-temperature mode, and
`Lighting.RgbPrimingShows` when the light shows it. The comment on the heap policy says the reclaimed bank
serves only when the primary is full; `SysHeapMalloc.ResizeBypassesPrimary` is a resize that never asks the
primary. The comment on the fade says every tick covers a fixed fraction of the distance left;
`Fade.StoreJumpsIff` says when one step covers all of it. The Kconfig help says the reclaim comes after
joining WiFi; the code waits only for provisioning, and `BtReclaim.UnjoinedNeedsCommissioning` and
`BtReclaim.CommissioningSuffices` say when BLE goes down without WiFi.

## Model

| member | source | states |
|---|---|---|
| ByteOrder.ReverseBytes | app/src/crypto/esp_ecc_psa_driver.c:89-94 | the destination window is the source backwards and every other byte is untouched, at any length and offset |
| ByteOrder.ReversedTwice | app/src/crypto/esp_ecc_psa_driver.c:89-94 | reversal is an involution |
| ByteOrder.ReversedValue | app/src/crypto/esp_ecc_psa_driver.c:18-21 | the reversed bytes have, little-endian, the value the originals have big-endian |
| ByteOrder.MemcmpIsNumeric | app/src/crypto/esp_ecc_psa_driver.c:96-100 | lexicographic comparison of equal-width strings is comparison of their big-endian values, in both directions and for equality |
| ByteOrder.BeLt | app/src/crypto/esp_ecc_psa_driver.c:97-100 | true exactly when the first number is smaller |
| ByteOrder.BeIsZero | app/src/crypto/esp_ecc_psa_driver.c:102-110 | the OR-accumulating loop is true exactly for the value zero |
| Curve.AddClosed | app/src/crypto/esp_ecc_psa_driver.c:546-571 | the sum of two points of y^2 = x^3 + ax + b over F_p, by chord or tangent, is again such a point or infinity |
| Curve.AddMeets | app/src/crypto/esp_ecc_psa_driver.c:546-571 | infinity is neutral, opposite points cancel, and any other sum is the reflection of the third point where the chord or tangent meets the curve |
| Curve.MulAffine | app/src/crypto/esp_ecc_psa_driver.c:272-273 | a scalar in [1, n-1] never sends an affine curve point to infinity, so no cofactor or low-order check is needed |
| Curve.MulMod | app/src/crypto/esp_ecc_psa_driver.c:479-481 | scalars act on points modulo n |
| EccDriver.ScalarBeInRange | app/src/crypto/esp_ecc_psa_driver.c:112-116 | true exactly for values in [1, n-1] |
| EccDriver.RandomScalarBe | app/src/crypto/esp_ecc_psa_driver.c:125-140 | returns the first in-range draw of at most 32, the generator's own error, or insufficient entropy, having consumed exactly those draws |
| EcdsaSpec.DrawDecides | app/src/crypto/esp_ecc_psa_driver.c:125-140 | after fewer than 32 out-of-range draws the next one decides, with its scalar or its error |
| EcdsaSpec.DrawsExhausted | app/src/crypto/esp_ecc_psa_driver.c:125-140 | 32 out-of-range draws end in insufficient entropy |
| EccDriver.HwPointMul | app/src/crypto/esp_ecc_psa_driver.c:142-176 | on big-endian buffers: refuses a point off the curve when verifying, otherwise writes the coordinates of scalar times point; nothing is written on failure and nothing outside the two windows ever |
| EccDriver.GenerateKey | app/src/crypto/esp_ecc_psa_driver.c:190-213 | a 32-byte buffer gets the first of at most 32 draws that lies in range, any other size is refused without drawing |
| Psa.Bignum.RefusedIff | app/src/crypto/esp_ecc_psa_driver.c:178-188 | a stretch of bignum calls ran out of memory exactly when one call in it was refused, so with ample memory the refusal branch of every contract below is empty |
| EccDriver.ExportPublicKey | app/src/crypto/esp_ecc_psa_driver.c:215-243 | the status of every guard in order, and on success 0x04, X, Y of d*G with the rest of the buffer untouched |
| EccDriver.KeyAgreement | app/src/crypto/esp_ecc_psa_driver.c:245-293 | every guard in order; success exactly for a peer encoding of a curve point, giving the abscissa of d*Q |
| EcdsaSpec.ExportAnswers | app/src/crypto/esp_ecc_psa_driver.c:215-243 | the guards in order, and otherwise 65 bytes whose halves after 0x04 are the coordinates of d*G |
| EcdsaSpec.AgreementAnswers | app/src/crypto/esp_ecc_psa_driver.c:245-293 | the guards in order, and for every curve point Q as peer 32 bytes whose value is the abscissa of d*Q |
| EcdsaSpec.AgreementSymmetric | app/src/crypto/esp_ecc_psa_driver.c:215-293 | SEC 1 section 3.3.1: any two in-range private keys d and f that exchange exported public keys compute the same 32 bytes, the abscissa of (d*f mod n)*G, every check passing |
| EcdsaSpec.BlindingTransparent | app/src/crypto/esp_ecc_psa_driver.c:369-387 | for nonzero k and t modulo n the blinded value is invertible and the blinded s equals (e + r*d)/k mod n |
| EccDriver.BlindedS | app/src/crypto/esp_ecc_psa_driver.c:376-387 | if every bignum call finds memory, the in-place sequence yields the unblinded s of SEC 1 with success, and if one does not, insufficient memory; the inversion never fails |
| EccDriver.NonceAbscissa | app/src/crypto/esp_ecc_psa_driver.c:357-364 | the abscissa of k*G reduced modulo n, or insufficient memory exactly when a bignum call found none |
| EccDriver.SignAttempt | app/src/crypto/esp_ecc_psa_driver.c:352-399 | with memory for every bignum call, one pass of the loop either stops with the whole run's answer or leaves it to the remaining attempts; a success has r and s in [1, n-1] |
| EccDriver.SignHash | app/src/crypto/esp_ecc_psa_driver.c:295-417 | for every key, hash, buffer, sequence of draws and pattern of refused bignum calls: if none was refused, status, draws consumed and every buffer byte are those of the recursive SEC 1 procedure; otherwise insufficient memory, with at most r written |
| EcdsaSpec.SignIsSignature | app/src/crypto/esp_ecc_psa_driver.c:349-401 | whatever the draws, a success is a signature of e under d for some nonce, with r and s in [1, n-1] |
| EcdsaSpec.SignGuards | app/src/crypto/esp_ecc_psa_driver.c:302-316 | unsupported requests, key lengths, short buffers and out-of-range keys are answered in this order, with no draw made |
| EcdsaSpec.SignAnswers | app/src/crypto/esp_ecc_psa_driver.c:352-401 | with a nonce k and then a blind drawn in range, r the reduced abscissa of k*G and s*k congruent to e + r*d, if both are nonzero |
| EcdsaSpec.SignStops | app/src/crypto/esp_ecc_psa_driver.c:353-356 | a failing draw, for the nonce or the blind, ends signing with its error |
| EcdsaSpec.SignRetries | app/src/crypto/esp_ecc_psa_driver.c:366-390 | r = 0 or s = 0 leaves the answer to the remaining attempts |
| EcdsaSpec.SignTriesEightTimes | app/src/crypto/esp_ecc_psa_driver.c:349-401 | eight attempts with r = 0 end in insufficient entropy |
| EcdsaSpec.ScalarsRecombine | app/src/crypto/esp_ecc_psa_driver.c:479-480 | u1 + u2*d is the nonce modulo n |
| EcdsaSpec.SignedIsAccepted | app/src/crypto/esp_ecc_psa_driver.c:479-480 | SEC 1 section 4.1.4 accepts every signature of section 4.1.3; the converse is in `AcceptsIff` |
| EcdsaSpec.SignedWithIff | app/src/crypto/esp_ecc_psa_driver.c:370-371 | a nonce k signs with (r, s) exactly if r is the reduced abscissa of k*G and s*k is congruent to e + r*d |
| EcdsaSpec.AcceptsIff | app/src/crypto/esp_ecc_psa_driver.c:479-481 | SEC 1 section 4.1.4 accepts a pair under d*G exactly if it is a signature of section 4.1.3, with nonce u1 + u2*d: no forgery passes and no signature fails |
| EcdsaSpec.ReferenceIff | app/src/crypto/esp_ecc_psa_driver.c:435-576 | under a matching key the reference verdict is success for the genuine signatures and invalid signature for every other byte string |
| EcdsaSpec.VerifyGuards | app/src/crypto/esp_ecc_psa_driver.c:424-474 | unsupported requests, signature length, range of r and s, and bad keys are answered in this order |
| EcdsaSpec.VerifyDecides | app/src/crypto/esp_ecc_psa_driver.c:419-593 | the driver's verdict is the reference one except where it declines, and through the wrapper software is asked exactly then, its answer standing; a rejection by the driver stands too |
| EcdsaSpec.DispatchUnoffered | manifest/zephyr/patches/tf-psa-crypto/0001-esp-ecc-transparent-driver-dispatch.patch:44-70 | a request outside the driver's offer gets software's answer |
| EcdsaSpec.HashLeftmost | app/src/crypto/esp_ecc_psa_driver.c:476-477 | a hash of up to 32 bytes counts whole, and bytes from the 33rd on count for nothing |
| EcdsaSpec.SignThenVerify | app/src/crypto/esp_ecc_psa_driver.c:295-593 | after any successful signing, verification under the key pair or its public half never rejects: it declines exactly if the hash is r*d modulo n and succeeds otherwise; through the dispatch wrapper with correct software it always succeeds |
| EcdsaSpec.SharesAbscissaIff | app/src/crypto/esp_ecc_psa_driver.c:546-552 | for a key d*G, u1*G and u2*Q share an x-coordinate exactly if u1 is nonzero and equal to u2*d or opposite to it modulo n |
| EcdsaSpec.GenuineDeclinedIff | app/src/crypto/esp_ecc_psa_driver.c:546-552 | of signatures that some nonce produced, those with the hash equal to r*d modulo n, and only those, meet the equal-x test |
| EcdsaSpec.SomeSignatureIsDeclined | app/src/crypto/esp_ecc_psa_driver.c:546-552 | for n > 2, every key and every nonce with nonzero r, there is a hash that the driver signs with that nonce and then declines to verify |
| EccDriver.ChordAbscissa | app/src/crypto/esp_ecc_psa_driver.c:554-571 | despite negative intermediates, the computed value is the abscissa of the sum, a curve point, unless a bignum call found no memory; the inversion never fails |
| EccDriver.SumAbscissa | app/src/crypto/esp_ecc_psa_driver.c:535-572 | with memory for every bignum call, the abscissa of u1*G + R2, with u1 = 0 handled outright and a shared abscissa declined, and in no other case |
| EccDriver.VerificationScalars | app/src/crypto/esp_ecc_psa_driver.c:521-525 | u1 = e/s and u2 = r/s modulo n, unless a bignum call found no memory; the inversion never fails for s in range |
| EcdsaSpec.U2Nonzero | app/src/crypto/esp_ecc_psa_driver.c:528-529 | u2 = r/s cannot be zero |
| EccDriver.PublicCoordinates | app/src/crypto/esp_ecc_psa_driver.c:446-474 | decodes a public key or derives it from a private one; a key that encodes no curve point is refused here or left to the engine's check |
| EccDriver.VerifyEquation | app/src/crypto/esp_ecc_psa_driver.c:479-576 | with memory for every bignum call, off-curve keys are invalid arguments; otherwise success, rejection or declining as SEC 1 and the shared-abscissa test say |
| EccDriver.VerifyHash | app/src/crypto/esp_ecc_psa_driver.c:419-593 | the answer is insufficient memory exactly when some bignum call found none, and otherwise the SEC 1 reference answer, except NOT_SUPPORTED exactly on unsupported requests and on a shared abscissa |
| EcdsaSpec.DecodeEncoded | app/src/crypto/esp_ecc_psa_driver.c:18-19 | decoding an exported point gives the point back |
| Secp256r1.BasePointOnCurve | app/src/crypto/esp_ecc_psa_driver.c:63-87 | the stored base point satisfies the SEC 2 curve equation modulo the stored p, which is 2^256 - 2^224 + 2^192 + 2^96 - 1, and n lies where a group order can |
| Secp256r1.DeviceValid | app/src/crypto/esp_ecc_psa_driver.c:63-87 | the stored byte strings are the secp256r1 parameters, so that only primality, the group law and the engine remain assumed |
| RandShim.FullPeriod | app/src/rand_shim.c:23-27 | for every modulus 2^k, multiplier 1 mod 4 and odd increment, n steps return to the start exactly when 2^k divides n |
| RandShim.GeometricValuation | app/src/rand_shim.c:25 | 1 + a + ... + a^(n-1) is divisible by exactly the powers of two that divide n |
| RandShim.RandPeriod | app/src/rand_shim.c:16-27 | from every state, the generator returns to it after multiples of 2^32 calls and no others |
| RandShim.RandVisitsOnce | app/src/rand_shim.c:16-27 | each 32-bit state is reached by exactly one of the first 2^32 calls |
| RandShim.RandEquidistributed | app/src/rand_shim.c:23-27 | over one period each 16-bit value is returned exactly 2^16 times and nothing else is |
| RandShim.RandRecurs | app/src/rand_shim.c:23-27 | the recurrence with the multiplier 1103515245, the increment 12345 and 32 bits, and the output as the state's upper half |
| RandShim.Rand.Next | app/src/rand_shim.c:23-27 | one call steps the state and returns its top 16 bits |
| RandShim.Rand.Srand | app/src/rand_shim.c:18-21 | the seed becomes the state |
| CriticalSection.Cpu.EspOsCritEnter | manifest/zephyr/patches/hal_espressif/0001-recursion-safe-esp-os-critical-section.patch:46 | the macro's whole effect on IRQ state, counter (with wrap-around) and saved key |
| CriticalSection.Cpu.EspOsCritExit | manifest/zephyr/patches/hal_espressif/0001-recursion-safe-esp-os-critical-section.patch:47 | likewise for the exit |
| CriticalSection.StepKeeps | manifest/zephyr/patches/hal_espressif/0001-recursion-safe-esp-os-critical-section.patch:36-48 | every single memory access of any thread or interrupt handler, down to reading and writing the counter and the saved key, keeps the invariant; IRQs are on only where no section is open, and the outermost exit restores what the outermost enter found |
| CriticalSection.EnterIsItsSteps | manifest/zephyr/patches/hal_espressif/0001-recursion-safe-esp-os-critical-section.patch:46 | the four accesses of an enter, uninterrupted, are the enter macro |
| CriticalSection.ExitIsItsSteps | manifest/zephyr/patches/hal_espressif/0001-recursion-safe-esp-os-critical-section.patch:47 | the steps of an exit, uninterrupted, are the exit macro: the counter read and written, and at zero the key read and IRQs unlocked |
| CriticalSection.SectionsExcludeInterrupts | manifest/zephyr/patches/hal_espressif/0001-recursion-safe-esp-os-critical-section.patch:19-23 | over every interleaving the globals are exactly what the running context's open sections account for |
| CriticalSection.OutermostRestores | manifest/zephyr/patches/hal_espressif/0001-recursion-safe-esp-os-critical-section.patch:46-57 | from an outermost enter to its exit IRQs are off in every state, control stays in the context, and the exit leaves the IRQ state as it was |
| CriticalSection.NewRestores | manifest/zephyr/patches/hal_espressif/0001-recursion-safe-esp-os-critical-section.patch:19-23 | every properly nested program of sections, re-entrant or not, ends with the IRQ state it began with |
| CriticalSection.OldRestoresIff | manifest/zephyr/patches/hal_espressif/0001-recursion-safe-esp-os-critical-section.patch:3-7 | the older macros do so exactly when no outermost section takes its own lock again |
| CriticalSection.ModemClockNesting | manifest/zephyr/patches/hal_espressif/0001-recursion-safe-esp-os-critical-section.patch:9-17 | the nesting met in BLE bring-up: the older macros leave IRQs off, the new ones do not |
| CriticalSection.CountingLimit | manifest/zephyr/patches/hal_espressif/0001-recursion-safe-esp-os-critical-section.patch:44-47 | n enters and n exits bring IRQs back exactly when n is at most 2^32 |
| Fade.NoLostWakeUp | app/src/LightingManager.cpp:33-59 | in every interleaving of target writes, schedule calls and handler steps, a channel off its target has a pending item, a setter yet to schedule, or a handler that will see it or reschedule |
| Fade.QuiescentMeansArrived | app/src/LightingManager.cpp:33-59 | from boot, whenever nothing is pending or running every channel is at its target |
| Fade.NoOvershoot | app/src/LightingManager.cpp:37-44 | in every interleaving a step that changes a channel ends between the old value and the target it used: 78% of the way to the first read, or on the second read, which is a move below the settling threshold when the two reads agree; no other step changes a channel |
| Fade.StoreJumpsIff | app/src/LightingManager.cpp:38-40 | a store, whatever ran between the handler's steps, moves its channel by the settling threshold or more exactly when the setter wrote that target between the handler's two reads, last with a value that far away |
| Fade.LateWriteJumps | app/src/LightingManager.cpp:38-40 | such a run exists from boot: a lamp that is off goes to full duty in one store |
| Fade.DutyInRange | app/src/LightingManager.cpp:25-51 | with targets in [0, 1] every duty, and every value in flight, stays in [0, 1] under any interleaving |
| Fade.SettlesWithin32Runs | app/src/LightingManager.cpp:33-51 | once targets stop changing at most 32 more runs begin, in a bounded number of steps, and the handler stops only with every channel at its target |
| Fade.ThirtyTwoIsTight | app/src/LightingManager.cpp:26-27 | the bound is reached |
| Fade.UninterruptedRunIsTick | app/src/LightingManager.cpp:33-51 | left alone, the interleaved machine does what the handler is specified to do |
| Lighting.LightingManager.FadeWorkHandler | app/src/LightingManager.cpp:33-51 | the loop moves every channel by one tick and reschedules exactly when some channel moved |
| Lighting.LightingManager.SetChannelTargets | app/src/LightingManager.cpp:53-59 | all targets are replaced and the item is pending |
| Lighting.LightingManager.Apply | app/src/LightingManager.cpp:125-160 | the targets become the ones the cache stands for |
| Lighting.RgbTargets | app/src/LightingManager.cpp:139-154 | channels 0, 1 and 2 get the red, green and blue share of the CIE brightness, and all are zero when off |
| Lighting.ColorByMode | app/src/LightingManager.cpp:140-151 | mode 0 shows hue and saturation, mode 1 chromaticity, any other the white of the mireds |
| Lighting.HueOwnsChannel | app/src/LightingManager.cpp:139-154 | in hue mode with any saturation a lit lamp carries the brightness on one channel, reds 0, greens 1, blues 2, and less on the others |
| Lighting.XyTargetsKeepOrder | app/src/LightingManager.cpp:139-154 | in xy mode the targets come in the order of the linear channels |
| Lighting.XyPrimaries | app/src/LightingManager.cpp:139-154 | the encoded sRGB primaries carry the brightness on channel 0, 1 and 2 and less on the others |
| Lighting.CctBlends | app/src/LightingManager.cpp:131-138 | between the end points warm and cool divide the brightness in proportion to the mireds |
| Lighting.LightingManager.PostAttributeChange | app/src/DeviceCallbacks.cpp:20-72 | the cache changes as the notification says and in no other way, targets follow the cache, and a change leaves the fade pending |
| Lighting.NoticesIgnored | app/src/DeviceCallbacks.cpp:24-69 | other endpoints, null values, values of the wrong size, unreadable pairs and, in the white build, colour attributes change nothing |
| Lighting.NoticesApplied | app/src/DeviceCallbacks.cpp:30-69 | in the RGB build on endpoint 1 each attribute sets its own part of the cache and the colour mode that goes with it |
| Lighting.LightingManager.Prime | app/src/AppTask.cpp:88-121 | the cache after the three priming reads, with targets following it |
| Lighting.CctPrimingAgrees | app/src/AppTask.cpp:90-118 | in the white build priming makes cache and data model agree exactly when each read succeeds (with a non-null level) or matches the default |
| Lighting.RgbPrimingAgrees | app/src/AppTask.cpp:90-118 | in the RGB build, whichever reads succeed, exactly when each read succeeds or matches the default, and the data model is in colour-temperature mode with the other colour attributes at their defaults |
| Lighting.RgbPrimingShows | app/src/AppTask.cpp:90-118 | just primed by three successful reads and a non-null level, the RGB lamp's targets are those of the data model exactly if it is off, at level zero, or its colour is the white of its mireds |
| Lighting.StaleHueShows | app/src/DeviceCallbacks.cpp:49-52 | after such a priming a saturation write in hue mode shows the data model's colour exactly if the default hue gives the same colour as the real one, or the lamp is dark; a nonzero saturation on a lit lamp with a hue in [86, 171] never does |
| Lighting.StaleSaturationShows | app/src/DeviceCallbacks.cpp:47-49 | after such a priming a hue write in hue mode turns the lamp white, which is right exactly if the real saturation is zero or the lamp is dark |
| Lighting.RgbCacheIsLastWrites | app/src/DeviceCallbacks.cpp:20-72 | over every sequence of attribute writes the RGB callbacks leave a cache in which each attribute is the last write that set it, x and y as the last successful read-back found them, and the mode that of the last colour write |
| Lighting.RgbShowsIff | app/src/DeviceCallbacks.cpp:20-72 | whatever priming could read and whatever was written since, the lamp's targets are the data model's exactly if the cache of those last writes looks like the data model: both dark, equally bright with one colour, or of different brightness that the colours make up for |
| Lighting.RgbCatchesUp | app/src/DeviceCallbacks.cpp:20-72 | whatever priming found, the RGB cache agrees once every attribute has been written, x and y were read back after their last write, and the mode is the last write that touches the mode |
| Lighting.CctStaysAgreed | app/src/DeviceCallbacks.cpp:20-72 | agreement survives every sequence of attribute writes, colour attributes included |
| Lighting.CctShowsDataModel | app/src/AppTask.cpp:88-118 | after priming from readable state with a non-null level and any writes, the channel targets are those of the data model |
| Lighting.CctSharesBrightness | app/src/LightingManager.cpp:125-158 | off is dark; on, warm and cool sum to the CIE brightness, with the end points exact |
| Lighting.ColorCarriesBrightness | app/src/LightingManager.cpp:139-154 | in hue and xy mode no channel exceeds the CIE brightness and some channel equals it, exactly unless the lamp is lit and the colour is xy with y = 0 |
| Lighting.TargetsInUnit | app/src/LightingManager.cpp:125-158 | every level up to 254 gives targets in [0, 1], whatever the colour |
| ColorMath.CieRange | app/src/color_math.c:15-29 | the brightness is nonnegative, and at most 1 exactly for levels up to 254 |
| ColorMath.CieIncreasing | app/src/color_math.c:15-29 | the brightness is strictly increasing across both pieces |
| ColorMath.CieIsLightness | app/src/color_math.c:15-29 | the brightness is the luminance whose CIE lightness is proportional to the level, on both pieces |
| ColorMath.CtMix | app/src/color_math.c:31-46 | the shares add to 1 and lie in [0, 1] |
| ColorMath.CtMixIsLinear | app/src/color_math.c:31-46 | the warm share is linear in the mireds between the strips and all or nothing outside |
| ColorMath.HsvSaturates | app/src/color_math.c:48-89 | some channel is 255 and every value fits a byte |
| ColorMath.HsvSectors | app/src/color_math.c:48-89 | the six sectors: which channel is full, which lowest, and how the third rises or falls |
| ColorMath.LinearExceedsOne | app/src/color_math.c:100-125 | for every x and every y > 0 some linear channel exceeds 1, so normalisation always applies |
| ColorMath.LinearPrimaries | app/src/color_math.c:113-116 | the three sRGB primaries drive one linear channel each, and the D65 white point all three alike |
| ColorMath.GammaMonotone | app/src/color_math.c:91-94 | the gamma curve is nondecreasing on [0, 1], across its knee |
| ColorMath.GammaIsTransfer | app/src/color_math.c:91-94 | linear with slope 12.92 up to the knee, and a power of 1/2.4 beyond it |
| ColorMath.XySaturates | app/src/color_math.c:96-140 | every colour fits bytes and has a full channel exactly when y > 0; y = 0 is black |
| ColorMath.XyKeepsOrder | app/src/color_math.c:113-137 | normalising, clamping, gamma and truncation never swap two channels |
| ColorMath.XyBytes | app/src/color_math.c:118-137 | each byte is the truncated gamma of the channel's share of the dominant one, and zero for a negative channel |
| SysHeapMalloc.AllocKeeps | manifest/zephyr/patches/connectedhomeip/0002-sysheapmalloc-noinit-and-multiheap-reclaim.patch:41-60 | an allocation adds one fresh, large enough and suitably aligned block and keeps all blocks aligned and apart; it lies in the reclaimed bank only if that bank is active and the primary refused, and it fails exactly if every registered bank refuses |
| SysHeapMalloc.FreeKeeps | manifest/zephyr/patches/connectedhomeip/0002-sysheapmalloc-noinit-and-multiheap-reclaim.patch:87-94 | a free takes exactly that block out of the bank that issued it |
| SysHeapMalloc.ReallocKeeps | manifest/zephyr/patches/connectedhomeip/0002-sysheapmalloc-noinit-and-multiheap-reclaim.patch:79-85 | a resize replaces exactly one block, possibly across banks, or fails and changes nothing; to a nonzero size it fails exactly if its own bank cannot resize the block and every registered bank refuses a new one; the result lies in the reclaimed bank exactly when that bank resized a block of its own, or when the block's own bank could not resize it and the primary refused it |
| SysHeapMalloc.AddRegionKeeps | manifest/zephyr/patches/connectedhomeip/0002-sysheapmalloc-noinit-and-multiheap-reclaim.patch:96-117 | a region is taken exactly when none is active, the base is not null and 256 bytes are there, with the error saying which; no block changes |
| SysHeapMalloc.OwnerIsIssuer | manifest/zephyr/patches/connectedhomeip/0002-sysheapmalloc-noinit-and-multiheap-reclaim.patch:25-29 | the bank found from a live pointer's address is the one that issued it |
| SysHeapMalloc.RunKeeps | manifest/zephyr/patches/connectedhomeip/0002-sysheapmalloc-noinit-and-multiheap-reclaim.patch:41-117 | over any sequence of legal requests no two live blocks overlap in or across banks, each is aligned and inside one registered bank, no bank moves or goes away, every block handed out from the reclaimed bank comes after registration and after the primary refused the request or as a resize inside that bank, and a request fails only where every bank that could serve it refused |
| SysHeapMalloc.ResizeBypassesPrimary | manifest/zephyr/patches/connectedhomeip/0002-sysheapmalloc-noinit-and-multiheap-reclaim.patch:84-85 | the last case occurs with room in the primary: a resize inside the reclaimed bank never asks it |
| SysHeapMalloc.SumOfPeaks | manifest/zephyr/patches/connectedhomeip/0002-sysheapmalloc-noinit-and-multiheap-reclaim.patch:124-125 | the sum of the banks' peaks bounds the peak of their sum, and equals it exactly when both peaked at one moment |
| SysHeapMalloc.SysHeap.Choose | manifest/zephyr/patches/connectedhomeip/0002-sysheapmalloc-noinit-and-multiheap-reclaim.patch:44-60 | the allocation policy as a state change |
| SysHeapMalloc.SysHeap.Realloc | manifest/zephyr/patches/connectedhomeip/0002-sysheapmalloc-noinit-and-multiheap-reclaim.patch:79-85 | resizing as a state change: in place, freeing on zero, allocating on null, or moving |
| SysHeapMalloc.SysHeap.AddReclaimedRegion | manifest/zephyr/patches/connectedhomeip/0002-sysheapmalloc-noinit-and-multiheap-reclaim.patch:96-117 | the guards in order and the registered, rounded region |
| SysHeapMalloc.SysHeap.GetStats | manifest/zephyr/patches/connectedhomeip/0002-sysheapmalloc-noinit-and-multiheap-reclaim.patch:120-135 | an error exactly when the active reclaimed bank fails to report; otherwise free is the sum over the active banks, used the sum of the sizes of all live blocks, and the reported maximum bounds the true combined peak since the last reset, with the exact condition for equality |
| BtReclaim.HandOverOnce | app/src/scaffold/CommonDeviceCallbacks.cpp:89-159 | over any events: one shutdown and one region offer at most, a shutdown only after a provisioned trigger with the service mode already disabled, an offer only after the controller reported idle, and no way back up while the region is in the heap |
| BtReclaim.RetriesCountBusyRuns | app/src/scaffold/CommonDeviceCallbacks.cpp:94-107 | in every reachable state the counter lies in [0, 16]; until done it is the number of busy runs since the last trigger and at most 15; it is 16 exactly after a run that met a live link with all retries spent and tore down anyway |
| BtReclaim.DoneWithinSixteenRuns | app/src/scaffold/CommonDeviceCallbacks.cpp:84-107 | if no new trigger comes, sixteen runs finish whatever the connection count and the timers do; if timers start, a next run is always due until done |
| BtReclaim.FifteenRunsNotEnough | app/src/scaffold/CommonDeviceCallbacks.cpp:94-107 | the bound is reached: from boot, one trigger and a link that stays up, fifteen runs leave the reclaim unfinished |
| BtReclaim.FailedTimerStrands | app/src/scaffold/CommonDeviceCallbacks.cpp:84-107 | over every run without a trigger, a pending reclaim ends unfinished with nothing due exactly if some step met a live link with a retry left, its timer did not start, and nothing else was queued |
| BtReclaim.StrandedFromBoot | app/src/scaffold/CommonDeviceCallbacks.cpp:84-107 | such runs exist from boot, in the first run of the work and in a retry |
| BtReclaim.UnjoinedNeedsCommissioning | app/src/scaffold/CommonDeviceCallbacks.cpp:144-159 | in a run in which WiFi never came up, a shutdown follows a commissioning that completed |
| BtReclaim.CommissioningSuffices | app/src/scaffold/CommonDeviceCallbacks.cpp:144-159 | and that is enough: from every reachable state that is not done, commissioning and one run of the work shut BLE down and hand the region over without WiFi |
| BtReclaim.JoiningSuffices | app/src/scaffold/CommonDeviceCallbacks.cpp:242-251 | WiFi coming up on a provisioned device leads to the hand-over likewise, as after a reboot |
| BtReclaim.ShutdownNeedsTrigger | app/src/scaffold/CommonDeviceCallbacks.cpp:144-159 | every shutdown follows WiFi coming up or commissioning completing on a provisioned device |
| BtReclaim.TriggerDecides | app/src/scaffold/CommonDeviceCallbacks.cpp:144-159 | a trigger clears the retry count and queues one run exactly if the device is provisioned and not done |
| BtReclaim.RunDecides | app/src/scaffold/CommonDeviceCallbacks.cpp:89-142 | a run tears BLE down exactly if no link is up or fifteen retries are spent, hands the region over exactly if the controller then is idle and the heap can be locked, and otherwise only arms the timer |
| BtReclaim.Reclaimer.BleShutdown | manifest/zephyr/patches/connectedhomeip/0006-zephyr-ble-shutdown-disable-service-mode.patch:22-30 | the service mode is disabled before the controller goes down |
| BtReclaim.Reclaimer.ReclaimBtDramWork | app/src/scaffold/CommonDeviceCallbacks.cpp:89-142 | one run of the work as a step of the machine, on the real allocator class, whose second bank becomes the reserve and nothing else |
| BtReclaim.Reclaimer.MaybeStartBtReclaim | app/src/scaffold/CommonDeviceCallbacks.cpp:144-159 | a trigger as a step of the machine |
| BtReclaim.Reclaimer.Deliver | app/src/scaffold/CommonDeviceCallbacks.cpp:164-254 | every event as a step of the machine |
| FactoryReset.ResetOnlyAfterHold | app/src/AppTask.cpp:38-55 | a reset happens only where the button read pressed exactly five seconds before and never released since |
| FactoryReset.HoldResetsInTime | app/src/AppTask.cpp:44-55 | a pressed reading not followed by a released one within five seconds has led to a reset by then, bounce or not |
| FactoryReset.ResetIsAnnounced | app/src/AppTask.cpp:33-49 | before every reset, between five and three seconds ahead, the warning was given and the button has not read released since |
| FactoryReset.WarningOnlyAfterHold | app/src/AppTask.cpp:33-49 | a warning is given only where the button read pressed exactly two seconds before and never released since |
| FactoryReset.HoldWarnsInTime | app/src/AppTask.cpp:44-49 | a pressed reading not followed by a released one within two seconds has led to a warning by then |
| FactoryReset.Button.Button0Handler | app/src/AppTask.cpp:44-55 | the handler as a step of the timed machine |

## Left out

- EccDriver.SignHash: does not say how many draws were consumed when memory runs out, because the caller gets no signature then.
- RandShim.Rand.Next: takes RAND_MAX from the C library the firmware links; that library is not part of this model.
- SysHeapMalloc.ReallocKeeps: does not model the copying of block contents, because the block bytes are not part of the state.
- SysHeapMalloc.SysHeap.GetStats: takes each bank's free-byte count as a parameter, because it depends on the backing heap's own overhead; how the primary's counters are fetched is outside the patch.
- Fade.DutyInRange: is about reals; float rounding is not modelled.
- Primality of p and n, associativity of the curve group and the engine's internals are hypotheses.
- Clearing of key material and timing behaviour have no functional content.
- The dispatch blocks for signing, key generation, export and agreement have the shape of the one for verification, which is modelled.
- The blackbody colour fit `cm_ct_to_rgb` is an abstract function: its constants are fitted to external data.
- The PWM driver, logging, mDNS, OTA initialisation, commissioning windows, shells, provisioning scripts, configuration and board files.
- The 802.15.4 transmit-error patch: the functions it changes are not in the repository in full.
