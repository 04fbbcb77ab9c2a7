# Hyperion: from captured images and clients to LED bytes

This project models the stateful core of Hyperion and proves what it promises over whole runs.
Most parts have two layers: a module of pure values with the state, one step and the theorems
about runs, and a class with the source's fields whose methods are proved to perform exactly that
step. Times are arguments, signals and written frames are sequences that grow.

| file | part of the system |
|---|---|
| Common.dfy | colour bytes, images, `int` arithmetic, small sequence facts |
| Smoothing.dfy | `LinearColorSmoothing`: interpolation to a target and the output delay line |
| BorderHysteresis.dfy | `updateBorder`: when a detected black border becomes the current one |
| BorderDetection.dfy | the three detection modes, the blur step and the `BlackBorderProcessor` |
| LedsMap.dfy | `ImageToLedsMap`, mean colours, and the `ImageProcessor` around them |
| Muxer.dfy | `PriorityMuxer`: timed channels, automatic and manual selection, signals |
| Effects.dfy | `EffectEngine` with `Hyperion::clear`, `clearall`, `setInput`: who owns a channel |
| ColorAdjustments.dfy | channel tables and the eight-corner mix of `MultiColorAdjustment` |
| Clones.dfy | LED strings, insertion of clone LEDs, byte order, extra hardware LEDs |
| WebSocket.dfy | frame headers, fragmentation, masking and reassembly (RFC 6455) |
| JsonFraming.dfy | newline framing of the JSON socket |
| Resampler.dfy | sampling grid and byte addressing of `ImageResampler` |

## Where the code does not keep a promise

The model keeps the code as it is; the exact condition is a lemma.

- When images change their size while a black border is current, the LED map is rebuilt without
  border, and the border detection reports no change for the border it already has: from then on
  the map cuts off nothing, however long the border is shown: `ResizeRecoversIff`, reached in
  `ResizeLosesBorder`. At one image size the map always follows the border: `RunInSync`.
- `switchOff` sets the target time to 0 and the time difference is then stored in an `int`. The
  next tick shows black exactly if the truncated difference is not positive (or everything was
  black already); otherwise lit channels overshoot black and wrap: `BlackAfterSwitchOff`, reached
  in `SwitchOffFlash`. The second half holds of an exact factor: the code's `float` rounds the
  factor to 1 for positive differences below about 95 seconds, and shows black there too
  (`BlackAtFactorIff` holds of whatever the factor is rounded to).
- `_consistentCnt ==` a switch count, not `>=`: a state whose counter is already past the count
  never switches to its candidate: `ConvergesIff`. Runs with fixed settings never get there;
  lowering a count in mid-run does: `LoweredCountSticks`.
- A blur above 1 (above 0 in classic mode) lets a border use up a whole image:
  `FitsIffBlurIsSafe`, with the images of `Misfit` and `ClassicMisfit`.
- `setPriority` in manual mode does not change the visible priority before the next evaluation,
  though its comment says it does: `SelectShowsIff`, reached in `SecondSelectionHidden`.
- A forced clear removes channels without a signal and keeps a manual selection that is gone:
  `OpMirrorsIff`, `OpKeepsManualIff`, reached in `ForcedClearForgets`. Only the shutdown calls it
  (libsrc/hyperion/Hyperion.cpp:187, src/hyperiond/hyperiond.cpp:153).
- Selecting a channel whose deadline has passed falls back to automatic mode at once, but manual
  mode is announced last: `OpMirrorsIff`, reached in `OverdueSelectionMisleads`.
- A timeout below -1 other than -100 can leave the wrong channel visible: `SetKeepsLowestIff`,
  reached in `InactiveStaysVisible`.
- A second image update runs past the colour-order list as soon as there is a clone or an extra
  hardware LED: `SecondImageUpdateIff`, reached in `SecondImageThrows`.
- A visible channel without colours throws as soon as there is a clone: `EmptyShowsIff`.
- A clone reads its source's slot only if the source has the smaller index: `SourceSlotIff`,
  reached in `LaterSourceShowsNeighbour`.
- A fragmented text message is handed over as binary: part of `StreamDelivered`, reached in
  `FragmentedTextIsBinary`.
- An unmasked binary frame is not refused but unmasked with the key of an earlier frame:
  `UnmaskedBinaryIff`. A continuation frame with nothing to continue is not refused either:
  `StrayContinuationDelivered`.
- A frame length of 2^63 or more is cast to a negative number and read as an empty payload:
  `HugeLengthReadsNothing`.
- Packed YUV of odd width reads chroma beyond the row: `BytesInRowIff`, reached in
  `OddRowReadsBeyond`.
- The output image is resized only if both sizes differ: `ResizeIff`, reached in
  `SameWidthKeepsHeight`.

## Model

| member | source | states |
|---|---|---|
| SmoothingSpec.Envelope | libsrc/hyperion/LinearColorSmoothing.cpp:108-145 | over any increasing ticks up to the target time a channel never overshoots; its distance is at most the straight line from start to target time and less than one unit per tick below it |
| SmoothingSpec.WriteFades | libsrc/hyperion/LinearColorSmoothing.cpp:68-145 | after a write each channel moves to the written value on the straight line that ends the settling time after the write, within one unit per tick; a value beyond the written ones goes on to its target |
| SmoothingSpec.FadeFromFirstWrite | libsrc/hyperion/LinearColorSmoothing.cpp:68-145 | the line to the second values written starts when the first ones were |
| SmoothingSpec.Settles | libsrc/hyperion/LinearColorSmoothing.cpp:113-145 | the first tick at or after the target time shows exactly the target |
| SmoothingSpec.WrittenValuesArrive | libsrc/hyperion/LinearColorSmoothing.cpp:68-145 | written values are fully shown from the first tick at or after the settling time, the very first ones at every tick |
| SmoothingSpec.TickGap | libsrc/hyperion/LinearColorSmoothing.cpp:124-140 | one tick leaves floor(D * remaining / span) of a channel's distance D and keeps its side of the target |
| SmoothingSpec.NeverOutsideTargets | libsrc/hyperion/LinearColorSmoothing.cpp:68-145 | no run of retargeting writes and ticks shows a value outside the range of the start and the written targets |
| SmoothingSpec.DelayLine | libsrc/hyperion/LinearColorSmoothing.cpp:147-175 | for any mix of writes and enabled or disabled ticks, frames given to the device followed by the queue are exactly the frames computed while enabled, in order; the queue never exceeds the delay |
| SmoothingSpec.DelayLineSwitchedOff | libsrc/hyperion/LinearColorSmoothing.cpp:90-175 | the same over runs that call switchOff any number of times, each turning exactly the frames still waiting into black ones |
| SmoothingSpec.NoDelay | libsrc/hyperion/LinearColorSmoothing.cpp:149-155 | without delay every enabled frame reaches the device at once |
| SmoothingSpec.PauseOnlyHoldsBack | libsrc/hyperion/LinearColorSmoothing.cpp:147-175 | over any run a pause keeps frames from the device and changes nothing else |
| SmoothingSpec.QueueLength | libsrc/hyperion/LinearColorSmoothing.cpp:157-174 | enabled ticks fill the queue up to the delay, disabled ticks drain it by one |
| SmoothingSpec.IdleShowsIff | libsrc/hyperion/LinearColorSmoothing.cpp:113-120 | past the target time, after one more frame, frames keep coming exactly with continuous output |
| SmoothingSpec.SwitchOffQueue | libsrc/hyperion/LinearColorSmoothing.cpp:90-106 | switching off turns the queue into as many black frames |
| SmoothingSpec.BlackAfterSwitchOff | libsrc/hyperion/LinearColorSmoothing.cpp:90-145 | for an exact factor, the tick after switching off is black if and only if the clock difference truncated to an int is not positive, or all was black |
| SmoothingSpec.BlackAtFactorIff | libsrc/hyperion/LinearColorSmoothing.cpp:124-140 | for any factor from 1 to 2 the step of a lit channel towards black arrives exactly if the factor is 1 |
| SmoothingSpec.SwitchOffFlash | libsrc/hyperion/LinearColorSmoothing.cpp:96-139 | a concrete clock value at which a lit channel turns to 255 instead of black |
| Smoothing.LinearColorSmoothing.Write | libsrc/hyperion/LinearColorSmoothing.cpp:68-88 | sets or retargets exactly as the step of the runs above |
| Smoothing.LinearColorSmoothing.SwitchOff | libsrc/hyperion/LinearColorSmoothing.cpp:90-106 | the push-and-pop loop replaces every queued frame by black |
| Smoothing.LinearColorSmoothing.QueueColors | libsrc/hyperion/LinearColorSmoothing.cpp:147-175 | performs the delay-line step |
| Smoothing.LinearColorSmoothing.UpdateLeds | libsrc/hyperion/LinearColorSmoothing.cpp:108-145 | the loop over the LEDs performs the interpolation step of the runs above |
| BorderHysteresis.AlwaysCanSwitch | libsrc/blackborder/BlackBorderProcessor.cpp:119-183 | in every run, disabled frames included, the counter of the candidate has not passed its switch count unless no counting is needed |
| BorderHysteresis.SettlesExactly | libsrc/blackborder/BlackBorderProcessor.cpp:119-183 | from any such state, and any in which b is not the candidate, feeding b makes it current after exactly FramesToSettle frames and keeps it current |
| BorderHysteresis.Converges | libsrc/blackborder/BlackBorderProcessor.cpp:119-183 | from every reachable state one steadily shown border is current, in its sizes, after maxInconsistentCnt + 1 + its switch count frames, and stays |
| BorderHysteresis.ConvergesIff | libsrc/blackborder/BlackBorderProcessor.cpp:119-183 | from any state at all, after that many frames of b it is current if and only if b is not a candidate whose counter is past the count |
| BorderHysteresis.StuckOutside | libsrc/blackborder/BlackBorderProcessor.cpp:166-175 | for such a candidate the equality test never fires, however long it is shown |
| BorderHysteresis.LoweredCountSticks | libsrc/blackborder/BlackBorderProcessor.cpp:45-67 | a run of four images after which lowering the switch count leaves such a candidate |
| BorderHysteresis.HasCandidate | libsrc/blackborder/BlackBorderProcessor.cpp:134-152 | in every run the counters are exactly the matches and the trailing misses since the frame that made the candidate, the miss counter continuing until the first match |
| BorderHysteresis.SwitchIsJustified | libsrc/blackborder/BlackBorderProcessor.cpp:135-180 | a known border is replaced by b only on the SwitchCnt(b)-th match after b became candidate, with no block of misses above maxInconsistentCnt in between |
| BorderHysteresis.SwitchDwells | libsrc/blackborder/BlackBorderProcessor.cpp:135-180 | after a known-to-known change the next change comes no earlier than maxInconsistentCnt + 1 + its switch count frames later |
| BorderDetection.ProcessDefault | include/blackborder/BlackBorderDetector.h:68-119 | finds the first lit column and row of the left and top third, or reports unknown |
| BorderDetection.ProcessClassic | include/blackborder/BlackBorderDetector.h:125-176 | finds the first lit diagonal point and walks left and up along lit pixels |
| BorderDetection.ProcessOsd | include/blackborder/BlackBorderDetector.h:182-234 | finds the first lit column, then the first row lit at that column |
| BorderDetection.DetectionUnique | include/blackborder/BlackBorderDetector.h:68-234 | the specification of each mode allows one border per image |
| BorderDetection.BarsFound | include/blackborder/BlackBorderDetector.h:68-234 | of black bars thinner than a third of the image the default and the osd mode find the thinner one in each direction, the classic mode the top and the left one; wider pairs of bars leave the border unknown in the first two |
| BorderDetection.DarkEdgesBarred | include/blackborder/BlackBorderDetector.h:68-119 | an image of that kind, with one dark column at each side |
| BorderDetection.LoneLightFound | include/blackborder/BlackBorderDetector.h:68-234 | the points each mode looks at: a single light is found exactly if it stands on one of them, at its distance from the edge |
| BorderDetection.KnownBorderFits | include/blackborder/BlackBorderProcessor.h:77-92 | a known border with a safe blur leaves part of the image |
| BorderDetection.FitsIffBlurIsSafe | include/blackborder/BlackBorderProcessor.h:84-92 | the map's size asserts hold for every image exactly when the blur is at most 1, in classic mode exactly when it is 0 |
| BorderProcessor.BlackBorderProcessor.UpdateBorder | libsrc/blackborder/BlackBorderProcessor.cpp:119-183 | updates the counters and borders exactly as the step of the runs above |
| BorderProcessor.BlackBorderProcessor.Process | include/blackborder/BlackBorderProcessor.h:64-96 | disabled: unknown border and true; enabled: the blurred detected border is the input of the hysteresis, and a reported known border fits this image |
| BorderProcessor.BlackBorderProcessor.ComponentStateChanged | libsrc/blackborder/BlackBorderProcessor.cpp:69-87 | keeps: enabled exactly if the user wants it and no component forbids it |
| BorderProcessor.BlackBorderProcessor.SetHardDisable | libsrc/blackborder/BlackBorderProcessor.cpp:89-102 | keeps the same; the user has the last word |
| LedsMapSpec.RangeInside | libsrc/hyperion/ImageToLedsMap.cpp:40-60 | along each axis a LED gets at least one pixel and none outside the border |
| LedsMapSpec.NeighboursMeet | libsrc/hyperion/ImageToLedsMap.cpp:40-60 | LEDs sharing an edge share no pixel and leave none out, unless one needed the one-pixel minimum |
| LedsMapSpec.RectangleExact | libsrc/hyperion/ImageToLedsMap.cpp:62-71 | the pushed indices are exactly the rectangle's pixels, strictly increasing, so without duplicates |
| LedsMapSpec.LedPixelsInside | libsrc/hyperion/ImageToLedsMap.cpp:26-75 | every LED with area gets a non-empty duplicate-free list inside the trimmed image |
| LedsMapSpec.LedPixelsExact | libsrc/hyperion/ImageToLedsMap.cpp:31-75 | a LED gets exactly the pixels whose centre lies between its horizontal and its vertical fractions of the trimmed image, or the one next to its edge where it holds no centre; none without area |
| LedsMapSpec.NoAreaIsBlack | libsrc/hyperion/ImageToLedsMap.cpp:34-38 | a LED without area is black |
| LedsMapSpec.WholeImage | libsrc/hyperion/ImageToLedsMap.cpp:40-74 | a LED over the whole image without border lists 0 .. width * height - 1 |
| LedsMapSpec.MeanIsFloor | include/hyperion/ImageToLedsMap.h:168-199 | each channel of a mean is the floor of the true average, unwrapped, between the smallest and largest value |
| LedsMapSpec.WholeMeanIsUnicolour | include/hyperion/ImageToLedsMap.h:168-235 | the multicolour mean of a whole-image LED is the unicolour mean |
| LedsMap.ImageToLedsMap.constructor | libsrc/hyperion/ImageToLedsMap.cpp:5-76 | maps every LED to its pixels for the given sizes |
| LedsMap.ImageToLedsMap.CollectPixels | libsrc/hyperion/ImageToLedsMap.cpp:31-75 | computes the pixel list of one LED |
| LedsMap.ImageToLedsMap.GetMeanLedColor | include/hyperion/ImageToLedsMap.h:86-104 | writes the mean of each LED's pixels, or nothing if the number of LEDs differs |
| LedsMap.ImageToLedsMap.GetUniLedColor | include/hyperion/ImageToLedsMap.h:129-144 | writes the image mean to every LED, or nothing if the number of LEDs differs |
| LedsMap.ImageToLedsMap.CalcMeanColor | include/hyperion/ImageToLedsMap.h:168-199 | the accumulating loop computes the mean over the listed pixels, black for none |
| LedsMap.ImageToLedsMap.CalcImageMean | include/hyperion/ImageToLedsMap.h:209-235 | the accumulating loop computes the mean over all pixels |
| ImageProcessing.ImageProcessor.SetSize | libsrc/hyperion/ImageProcessor.cpp:64-77 | keeps a map of the right size, otherwise builds one with zero borders |
| ImageProcessing.ImageProcessor.VerifyBorder | include/hyperion/ImageProcessor.h:184-215 | performs the step of the runs of BorderMapping with the border of this image: a map in step with the current border stays so; the rebuilt map meets the size asserts for every image; no border while disabled |
| ImageProcessing.ImageProcessor.Process | include/hyperion/ImageProcessor.h:143-166 | performs that step, a change of size included, and colours every LED with the mean of the map in use, or leaves the output alone; at an unchanged size the map stays in step with the border |
| ImageProcessing.MappingTypeRoundTrip | libsrc/hyperion/ImageProcessor.cpp:14-29 | the names of the two mappings survive the conversion to a number and back |
| BorderMapping.StaysInSyncIff | include/hyperion/ImageProcessor.h:184-215 | one image keeps the map in step with the current border exactly unless it has another size, a border is current, and the image does not change it |
| BorderMapping.RunInSync | include/hyperion/ImageProcessor.h:184-215 | over any run at one image size, detection switched on and off in between, the map cuts off the current border |
| BorderMapping.ResizeRecoversIff | libsrc/hyperion/ImageProcessor.cpp:64-77 | when images of another size show border b, the map cuts off b after the frames of the convergence bound if and only if b was not current before or cuts off nothing |
| BorderMapping.ResizeLosesBorder | libsrc/hyperion/ImageProcessor.cpp:64-77 | a run from the start after which the map cuts off nothing for ever |
| BorderMapping.LedsSeeNoBars | include/hyperion/ImageProcessor.h:184-215 | when pictures between black bars are shown long enough, in any mode with a safe blur, every pixel every LED reads belongs to the picture, and only bars and blur are cut off |
| MuxerSpec.VisibleIsLowest | libsrc/hyperion/PriorityMuxer.cpp:63-340 | after any operations with timeouts -100 or at least -1, automatic selection shows the minimum of 255 and the channels with a timeout of at least -1 |
| MuxerSpec.SetKeepsLowestIff | libsrc/hyperion/PriorityMuxer.cpp:165-202 | for any timeout one update keeps that exactly if the change is noticed, activity does not change, or the channel lies behind the visible one |
| MuxerSpec.InactiveStaysVisible | libsrc/hyperion/PriorityMuxer.cpp:165-202 | the failing case from a new muxer: a timeout of -2 leaves an inactive channel visible |
| MuxerSpec.VisibleIsRegistered | libsrc/hyperion/PriorityMuxer.cpp:141-340 | if 255 never gets a deadline, the visible priority is a registered channel in both modes |
| MuxerSpec.ManualIsRegistered | libsrc/hyperion/PriorityMuxer.cpp:63-97 | outside forced clears manual mode implies that the selected channel is registered |
| MuxerSpec.OpKeepsManualIff | libsrc/hyperion/PriorityMuxer.cpp:263-270 | a forced clear breaks that exactly if a channel other than 255 is selected manually |
| MuxerSpec.ExpiresOnTime | libsrc/hyperion/PriorityMuxer.cpp:263-312 | an untouched channel survives every run before its deadline with its content, clears of all channels that spare it included, and is gone after the first evaluation at or past it |
| MuxerSpec.SetContentLasts | libsrc/hyperion/PriorityMuxer.cpp:165-241 | for every timeout, colours or an image that were set are what the channel shows from then on, with the deadline counted from the call; everything else of the channel stays |
| MuxerSpec.UndisturbedLasts | libsrc/hyperion/PriorityMuxer.cpp:141-312 | a channel nobody touches keeps deadline and content until the deadline, and who registered it until it is registered again |
| MuxerSpec.RegisteredAsLasts | libsrc/hyperion/PriorityMuxer.cpp:141-163 | a registration names the channel until the next one; a known channel keeps content and deadline, a new one is inactive and empty |
| MuxerSpec.EvaluateTwice | libsrc/hyperion/PriorityMuxer.cpp:284-340 | evaluating at two times leaves the state of evaluating at the later one, manual fall-back included |
| MuxerSpec.ClearAllExact | libsrc/hyperion/PriorityMuxer.cpp:271-281 | the clearing loop removes exactly the colour and effect channels below 254 and evaluates once, or does nothing |
| MuxerSpec.ClearAllLeaves | libsrc/hyperion/PriorityMuxer.cpp:271-281 | the channels left are those that were neither cleared nor overdue; none is left to clear |
| MuxerSpec.ForcedClearLeaves | libsrc/hyperion/PriorityMuxer.cpp:265-270 | only the lowest channel is left, and visible |
| MuxerSpec.ClearedReadsLowest | libsrc/hyperion/PriorityMuxer.cpp:126-139 | a channel that was cleared reads as the lowest one |
| MuxerSpec.OpMirrorsIff | libsrc/hyperion/PriorityMuxer.cpp:141-340 | an observer of the signals knows the channels, the active ones and the visible one; a forced clear keeps that exactly if it changes nothing; the mode is known too, exactly unless an overdue channel is selected |
| MuxerSpec.OverdueSelectionMisleads | libsrc/hyperion/PriorityMuxer.cpp:63-97 | the failing case from a new muxer: manual mode is announced last, in automatic mode |
| MuxerSpec.ForcedClearForgets | libsrc/hyperion/PriorityMuxer.cpp:263-270 | the failing case of both from a new muxer |
| MuxerSpec.SignalsMirrorRuns | libsrc/hyperion/PriorityMuxer.cpp:141-340 | the same over any run without forced clears |
| MuxerSpec.SelectShowsIff | libsrc/hyperion/PriorityMuxer.cpp:87-97 | selecting a channel shows it at once exactly if selection was automatic and it is not overdue; the next evaluation at any later time shows it exactly if it is not overdue then |
| MuxerSpec.ModeFollowsIff | libsrc/hyperion/PriorityMuxer.cpp:63-97 | automatic mode follows every request, manual mode exactly while the channel selected last is there and not overdue; selecting a missing channel changes nothing |
| MuxerSpec.SecondSelectionHidden | libsrc/hyperion/PriorityMuxer.cpp:87-97 | the failing case from a new muxer: a second selection does not show |
| MuxerSpec.InitialIsGood | libsrc/hyperion/PriorityMuxer.cpp:17-37 | a new muxer shows black on all LEDs, refuses manual mode, and satisfies all invariants above |
| PriorityMuxing.PriorityMuxer.SetSourceAutoSelectEnabled | libsrc/hyperion/PriorityMuxer.cpp:63-85 | changes the mode only if the manual channel is still there; full new state |
| PriorityMuxing.PriorityMuxer.SetPriority | libsrc/hyperion/PriorityMuxer.cpp:87-97 | full new state and result |
| PriorityMuxing.PriorityMuxer.GetInputInfo | libsrc/hyperion/PriorityMuxer.cpp:126-139 | the channel, or channel 255, or the fall-back |
| PriorityMuxing.PriorityMuxer.RegisterInput | libsrc/hyperion/PriorityMuxer.cpp:141-163 | full new state; a known channel keeps its timeout and content |
| PriorityMuxing.PriorityMuxer.SetInput | libsrc/hyperion/PriorityMuxer.cpp:165-202 | full new state and result |
| PriorityMuxing.PriorityMuxer.SetInputImage | libsrc/hyperion/PriorityMuxer.cpp:204-241 | full new state and result |
| PriorityMuxing.PriorityMuxer.SetInputInactive | libsrc/hyperion/PriorityMuxer.cpp:243-247 | full new state and result |
| PriorityMuxing.PriorityMuxer.ClearInput | libsrc/hyperion/PriorityMuxer.cpp:249-261 | full new state and result |
| PriorityMuxing.PriorityMuxer.ClearAll | libsrc/hyperion/PriorityMuxer.cpp:263-282 | the loop over the keys performs the clear of the runs above |
| PriorityMuxing.PriorityMuxer.EraseExpired | libsrc/hyperion/PriorityMuxer.cpp:287-312 | erasing while iterating keeps exactly the unexpired channels, announces the others in key order and finds the lowest active one |
| PriorityMuxing.PriorityMuxer.SetCurrentTime | libsrc/hyperion/PriorityMuxer.cpp:284-340 | performs the evaluation of the runs above |
| EffectSpec.AlwaysOneOwner | libsrc/effectengine/EffectEngine.cpp:296-358 | in every reachable state at most one uninterrupted effect runs per priority |
| EffectSpec.FinishClearsIff | libsrc/effectengine/EffectEngine.cpp:337-358 | an interrupted effect changes no channel when it finishes, an uninterrupted one clears its own |
| EffectSpec.EndedNeverClears | libsrc/effectengine/EffectEngine.cpp:296-358 | an effect ended by a new effect, a clear of its channel or of everything, or somebody else's content changes no channel when it finishes, whatever happens in between |
| EffectSpec.ClearedEverything | libsrc/hyperion/Hyperion.cpp:496-502 | no colour or effect channel below 254 is left, with force none but 255; exactly the effects on 254 go on |
| EffectSpec.ClearRemovesByte | libsrc/hyperion/Hyperion.cpp:484-494 | exactly the effects of the priority end, and the channel its low byte names is gone |
| EffectSpec.OwnerKeepsChannel | libsrc/effectengine/EffectEngine.cpp:296-358 | as long as nobody clears or takes over its channel, a running effect keeps it whatever else happens, earlier effects of the channel finishing included and, for the background effect on 254, clears of all channels, until a deadline of its own passes |
| EffectSpec.StartOwns | libsrc/effectengine/EffectEngine.cpp:296-313 | starting an effect makes it the owner of its channel, which bears its name |
| EffectControl.EffectEngine.ChannelCleared | libsrc/effectengine/EffectEngine.cpp:315-324 | interrupts exactly the effects of the channel |
| EffectControl.EffectEngine.AllChannelsCleared | libsrc/effectengine/EffectEngine.cpp:326-335 | interrupts exactly the effects not on 254 |
| EffectControl.EffectEngine.RunEffectScript | libsrc/effectengine/EffectEngine.cpp:296-313 | full new state of effects and muxer |
| EffectControl.EffectEngine.EffectFinished | libsrc/effectengine/EffectEngine.cpp:337-358 | full new state of effects and muxer |
| EffectControl.EffectEngine.HyperionClear | libsrc/hyperion/Hyperion.cpp:484-494 | full new state of effects and muxer |
| EffectControl.EffectEngine.HyperionClearAll | libsrc/hyperion/Hyperion.cpp:496-502 | full new state of effects and muxer |
| EffectControl.EffectEngine.HyperionSetInput | libsrc/hyperion/Hyperion.cpp:411-445 | full new state of effects and muxer |
| AdjustmentSpec.WeightsSum | libsrc/hyperion/MultiColorAdjustment.cpp:114-126 | the eight corner weights of any colour add up to at most 255 |
| AdjustmentSpec.NeverWraps | libsrc/hyperion/MultiColorAdjustment.cpp:131-142 | for every calibration, brightness and colour the byte sums are exact |
| AdjustmentSpec.NeutralLosesAtMostThree | libsrc/hyperion/MultiColorAdjustment.cpp:114-142 | with default corners at full brightness each output lies in [c-3, c] |
| AdjustmentSpec.CornersShowTheirColors | libsrc/hyperion/MultiColorAdjustment.cpp:114-142 | each corner of the colour cube becomes its own configured colour, scaled by the brightness of its kind |
| AdjustmentSpec.ScaledAtMost | libsrc/utils/RgbChannelAdjustment.cpp:61-63 | a scaled weight is the floor of the exact product, never exceeds the weight, and equals it at full settings |
| ColorAdjustments.RgbChannelAdjustment.Apply | libsrc/utils/RgbChannelAdjustment.cpp:51-69 | after any earlier calls the lazily filled table gives the formula for the latest adjustment and the given brightness |
| ColorAdjustments.RgbChannelAdjustment.SetAdjustment | libsrc/utils/RgbChannelAdjustment.cpp:28-34 | sets the three bytes and keeps the table consistent |
| ColorAdjustments.RgbChannelAdjustment.ResetInitialized | libsrc/utils/RgbChannelAdjustment.cpp:22-26 | no entry counts as filled |
| ColorAdjustments.ColorAdjustment.AdjustColor | libsrc/hyperion/MultiColorAdjustment.cpp:106-142 | mixes one colour through eight separate tables as the formula says, and changes no setting |
| ColorAdjustments.MultiColorAdjustment.ApplyAdjustment | libsrc/hyperion/MultiColorAdjustment.cpp:93-144 | overwrites exactly the LEDs that have a calibration, shared calibrations included |
| StripSpec.SortIsSorted | include/utils/hyperion.h:234-234 | sorting by index yields a sorted permutation |
| StripSpec.ConfigMakesStrip | include/utils/hyperion.h:190-275 | for indices that are a permutation, sorted originals and sorted clones cover every index once |
| StripSpec.EntryBecomesLed | include/utils/hyperion.h:190-275 | every entry becomes one LED of its index and byte order: a clone of the entry it names, or an original that covers its configured part of the image, bounds given in either order |
| StripSpec.OwnersSoFar | libsrc/hyperion/Hyperion.cpp:650-654 | when a clone is inserted, all smaller indices already are in their slots |
| StripSpec.OwnersComplete | libsrc/hyperion/Hyperion.cpp:650-654 | after all insertions slot i belongs to LED i |
| StripSpec.SlotsAreLeds | libsrc/hyperion/Hyperion.cpp:650-654 | originals keep their colour in their slot; a clone with an earlier source shows that source's colour |
| StripSpec.SourceSlotIff | libsrc/hyperion/Hyperion.cpp:650-654 | the slot a clone copies is its source's own exactly if the source index is smaller |
| StripSpec.LaterSourceShowsNeighbour | libsrc/hyperion/Hyperion.cpp:650-654 | the failing case of three configured LEDs: the clone shows another LED than its source |
| StripSpec.InsertedLength | libsrc/hyperion/Hyperion.cpp:653-653 | no insertion throws exactly if every source lies within the buffer at its turn |
| StripSpec.EarlierSourcesNeverThrow | libsrc/hyperion/Hyperion.cpp:653-653 | sources before their clones never throw |
| StripSpec.OrdersAreLeds | libsrc/hyperion/Hyperion.cpp:110-117 | slot i of the colour-order list has the order of LED i |
| StripSpec.UpdateShowsStrip | libsrc/hyperion/Hyperion.cpp:650-690 | one update gives every LED its colour in its own byte order, and black beyond the strip |
| StripSpec.BytesInNamedOrder | libsrc/hyperion/Hyperion.cpp:656-685 | the bytes sent for a colour are its channels in the order of the letters of the order's name |
| StripSpec.PlainUpdatesShowImage | libsrc/hyperion/Hyperion.cpp:609-690 | without clones and extra hardware LEDs every image update shows its own image |
| StripSpec.SecondImageUpdateIff | libsrc/hyperion/Hyperion.cpp:609-690 | a further image update succeeds exactly without clones and extra hardware LEDs |
| StripSpec.SecondImageThrows | libsrc/hyperion/Hyperion.cpp:609-690 | the failing case of two configured LEDs: the second image throws |
| StripSpec.EmptyShowsIff | libsrc/hyperion/Hyperion.cpp:638-690 | a channel without colours is shown exactly if there is no clone |
| StripSpec.StripIsInsertable | libsrc/hyperion/Hyperion.cpp:650-654 | the originals and clones of a permutation meet what the insertions demand |
| Strips.CreateLedString | include/utils/hyperion.h:190-236 | the originals, clamped, with swapped bounds ordered, sorted |
| Strips.CreateLedStringClone | include/utils/hyperion.h:238-275 | the clones, sorted |
| Strips.Hyperion.constructor | libsrc/hyperion/Hyperion.cpp:84-117 | builds the strip and its colour orders by insertion, for every configuration whose insertions lie within the list |
| Strips.Hyperion.FinishUpdate | libsrc/hyperion/Hyperion.cpp:650-690 | the loops produce the buffer of UpdateShowsStrip, or fail exactly when an access throws; also for an empty buffer |
| Strips.Hyperion.CorrectOrder | libsrc/hyperion/Hyperion.cpp:660-683 | the swaps put the bytes into the named order |
| WebSocketSpec.HeaderRoundTrip | libsrc/webserver/WebSocketClient.cpp:152-190 | parsing a built header, masked or not, returns its parts and consumes exactly it |
| WebSocketSpec.HeaderOnTheWire | libsrc/webserver/WebSocketClient.cpp:301-338 | a built header has the bits and bytes of section 5.2 of RFC 6455: FIN, clear reserved bits, opcode, mask bit, length code, extended length from the highest byte, key |
| WebSocketSpec.ParsedFromTheWire | libsrc/webserver/WebSocketClient.cpp:152-190 | what is read from any bytes is what they say in that form, the reserved bits apart; a header is complete exactly if all its bytes are there |
| WebSocketSpec.ShortestForm | libsrc/webserver/WebSocketClient.cpp:301-338 | the header uses the shortest length form, and a length of 2^63 or more gets none |
| WebSocketSpec.XorByBit | libsrc/webserver/WebSocketClient.cpp:98-98 | the masking operation sets a bit exactly if the two bits differ |
| WebSocketSpec.MaskedByKeyByte | libsrc/webserver/WebSocketClient.cpp:95-99 | byte i is masked, bit by bit, by key byte i mod 4 |
| WebSocketSpec.MaskTwice | libsrc/webserver/WebSocketClient.cpp:95-99 | unmasking undoes masking |
| WebSocketSpec.SentParsesBack | libsrc/webserver/WebSocketClient.cpp:246-288 | the stream sent for a message parses into text frames that add up to it, all full but the last, FIN on the last only |
| WebSocketSpec.WaitingIsHarmless | libsrc/webserver/WebSocketClient.cpp:46-62 | however a payload is split into chunks, a call after every chunk equals one call with everything there |
| WebSocketSpec.HugeLengthReadsNothing | libsrc/webserver/WebSocketClient.cpp:54-62 | a length of 2^63 or more is never waited for: the frame is handled without payload |
| WebSocketSpec.ViolationsClose | libsrc/webserver/WebSocketClient.cpp:82-93 | a message inside an unfinished one, or an unmasked text frame, closes and delivers nothing |
| WebSocketSpec.OtherFramesHandled | libsrc/webserver/WebSocketClient.cpp:64-149 | a close frame closes; a pong or a reserved opcode is read without effect |
| WebSocketSpec.UnmaskedBinaryIff | libsrc/webserver/WebSocketClient.cpp:88-99 | an unmasked binary message arrives as sent if and only if the bytes of the key left from before that it meets are zero |
| WebSocketSpec.StrayContinuationDelivered | libsrc/webserver/WebSocketClient.cpp:82-125 | a final continuation with nothing to continue is delivered as a binary message |
| WebSocketSpec.PingsChangeNothing | libsrc/webserver/WebSocketClient.cpp:133-140 | any number of pings leaves messages and continuation state alone and is answered by as many empty pongs |
| WebSocketSpec.MessageDelivered | libsrc/webserver/WebSocketClient.cpp:71-125 | the frames of one message, with pings in between, deliver exactly its bytes |
| WebSocketSpec.StreamDelivered | libsrc/webserver/WebSocketClient.cpp:46-150 | any sequence of masked messages delivers their bytes in order, as text exactly for unfragmented text, leaving an empty buffer and no continuation |
| WebSocketSpec.FragmentedTextIsBinary | libsrc/webserver/WebSocketClient.cpp:109-125 | any text message in two frames is delivered as binary |
| WebSocket.WebSocketClient.MakeFrameHeader | libsrc/webserver/WebSocketClient.cpp:301-338 | writes the shortest header, and none for a payload of 2^63 or more |
| WebSocket.WebSocketClient.SendMessage | libsrc/webserver/WebSocketClient.cpp:246-288 | the fragmentation loop writes the stream of SentParsesBack |
| WebSocket.WebSocketClient.GetWsFrameHeader | libsrc/webserver/WebSocketClient.cpp:152-190 | reads a complete header byte by byte as the parser of HeaderRoundTrip |
| WebSocket.WebSocketClient.HandleWebSocketFrame | libsrc/webserver/WebSocketClient.cpp:46-150 | performs the handling step of StreamDelivered |
| WebSocket.WebSocketClient.Unmask | libsrc/webserver/WebSocketClient.cpp:95-99 | the loop unmasks every byte with its key byte |
| JsonFraming.CutIsFaithful | libsrc/jsonserver/JsonClientConnection.cpp:27-41 | cutting yields lines with one newline at their end, a rest without, and loses nothing |
| JsonFraming.CutIsUnique | libsrc/jsonserver/JsonClientConnection.cpp:27-41 | there is only one such cut |
| JsonFraming.SplitIffCut | libsrc/jsonserver/JsonClientConnection.cpp:23-42 | the lines and the rest are the one way to split a stream: put together they are the stream, every line ends at its only newline, the rest has none |
| JsonFraming.CutContinues | libsrc/jsonserver/JsonClientConnection.cpp:23-42 | more bytes continue the rest and never change the lines before |
| JsonFraming.JsonClientConnection.ReadRequest | libsrc/jsonserver/JsonClientConnection.cpp:23-42 | however the stream is split into reads, the handled messages and the buffer are that split of all bytes received; the loop ends |
| ResamplerSpec.SampleTakenIff | libsrc/utils/ImageResampler.cpp:62-70 | the k-th sample of an axis is taken exactly if it lies inside the cropped extent |
| ResamplerSpec.SampleIsMiddle | libsrc/utils/ImageResampler.cpp:68-72 | a sample stands in the middle of its block of pixels |
| ResamplerSpec.HalfPicture | libsrc/utils/ImageResampler.cpp:44-63 | of a side-by-side picture the left half is sampled, of a top-and-bottom picture the upper half |
| ResamplerSpec.BytesInRowIff | libsrc/utils/ImageResampler.cpp:76-125 | the bytes read for a pixel lie in its row; for packed formats exactly unless it ends a row of odd width |
| ResamplerSpec.PackedReads | libsrc/utils/ImageResampler.cpp:76-93 | the smallest and largest index of the luma and chroma bytes of a packed pixel are those BytesInRowIff speaks of |
| ResamplerSpec.OddRowReadsBeyond | libsrc/utils/ImageResampler.cpp:85-93 | the failing case: the last sample of a row of three pixels reads chroma beyond the buffer |
| ResamplerSpec.PairSharesChroma | libsrc/utils/ImageResampler.cpp:76-93 | both pixels of a pair read their own pair's four bytes and the same chroma |
| ResamplerSpec.ReadAsNamed | libsrc/utils/ImageResampler.cpp:74-129 | the bytes of a pixel are read as the letters of its format's name say |
| ResamplerSpec.AllReadable | libsrc/utils/ImageResampler.cpp:62-125 | for a valid crop and whole pixel pairs no sample reads outside the buffer |
| ResamplerSpec.ResizeIff | libsrc/utils/ImageResampler.cpp:65-66 | the output has the right size exactly if both sizes were right or both wrong |
| ResamplerSpec.SameWidthKeepsHeight | libsrc/utils/ImageResampler.cpp:65-66 | the failing case: after a picture of the same width the output keeps the old height |
| ResamplerSpec.GreyScale | libsrc/utils/ImageResampler.cpp:139-149 | without chroma the colour is grey, black to white over the studio range, growing with luma |
| ResamplerSpec.ChromaDirections | libsrc/utils/ImageResampler.cpp:139-149 | red follows V alone, blue follows U alone, more of either never adds green |
| ResamplerSpec.CloseToExact | libsrc/utils/ImageResampler.cpp:139-149 | for every encoding the fixed-point conversion lies within one step of the exact studio-range conversion |
| ResamplerSpec.Bgr16Lossless | libsrc/utils/ImageResampler.cpp:94-101 | the 16 bits of a pixel can be read back from its colour |
| Resampler.ImageResampler.ProcessImage | libsrc/utils/ImageResampler.cpp:42-132 | an output whose size was right, or wrong in both directions, has the right size afterwards and every pixel is its source sample; an unknown format leaves an image of the right size alone |
| Resampler.ImageResampler.FillPixels | libsrc/utils/ImageResampler.cpp:68-131 | the nested loops write every sample to its pixel |
| Resampler.ImageResampler.ReadPixel | libsrc/utils/ImageResampler.cpp:74-129 | decodes one pixel of each format |

## Left out

- Sockets, timers, threads, signal delivery, the Python effects, settings, the web UI and the grabbers: a timer is a step with a time, a signal an appended event.
- Rounding of `float` and `double`: the smoothing factor, the LED fractions and `qRound` are exact; a byte stored from an out-of-range value is taken modulo 256.
- SmoothingSpec.Envelope: ticks at strictly increasing times whose distance to the target time fits an `int`, because at equal times the factor is 0 / 0; the truncation of that difference is modelled.
- SmoothingSpec.BlackAfterSwitchOff: the factor is exact, not a float, see above.
- SmoothingSpec.DelayLine: for a fixed delay and no pause; DelayLineSwitchedOff adds calls of switchOff.
- Smoothing: choosing among stored configurations, enabling and pausing, starting and stopping the timer.
- Border counters are unbounded; settings stay fixed along a run, LoweredCountSticks shows why.
- ImageProcessing.ImageProcessor.Process: `setLedString`, which also rebuilds the map without border, is not modelled; images are below 10000 pixels in each direction.
- The border threshold is a given byte; `setEnabled`, which nothing calls, is not modelled.
- Mean colours: the accumulators are taken as wide enough, as `uint_fast16_t` is on 64-bit systems.
- Muxer: the `prioritiesChanged`, `timeRunner` and `visiblePriorityChanged` listeners, the one-second trigger, and `updateLedColorsLength`.
- EffectSpec.OwnerKeepsChannel: content that an interrupted effect had queued before it stopped is not modelled.
- Colour adjustment: gamma, backlight and brightness components are given by a function and three bytes; which LED has which calibration is given.
- Strips.Hyperion.FinishUpdate: an insertion position beyond the end of the buffer is undefined in the code; such configurations, and buffers with some but too few colours, are excluded.
- Clones: repeated image updates are covered only by SecondImageUpdateIff; a clone with a later source has no colour claim beyond SourceSlotIff.
- WebSocketSpec.StreamDelivered: calls made before a header is complete, the content of close and pong frames, and the reading of binary messages are not covered; a later call is assumed for every frame.
- WebSocket.WebSocketClient.GetWsFrameHeader: headers whose bytes have not all arrived are not covered; the code reads them as they are.
- WebSocketSpec.SentParsesBack: the socket takes every byte; all fragments carry the text opcode, as the code writes them.
- JsonFraming.JsonClientConnection.ReadRequest: messages are characters; the cut of a message at a zero character by the string class is not modelled.
- Resampler.ImageResampler.ProcessImage: an output wrong in one direction only is excluded, see ResizeIff; the memory a resize leaves behind is unspecified.
- JSON replies, databases, conversions of names and enums, logging.
