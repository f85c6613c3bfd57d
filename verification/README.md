# Matching-pursuit deconvolution of yass, modelled in Dafny

This project models the core of the spike sorter yass:

- **The matching-pursuit deconvolution engine** (`MatchPursuit_objectiveUpsample` and `MatchPursuitWaveforms`).
- **The two pure steps of the clustering utilities** that cut the detected spike train into per-unit partitions and gather the clustering result back into one train.

## What the engine does

A bank of `K` templates is first processed once:

- it is masked to its visible channels;
- each template gets `F` sub-sample variants, numbered `k * F + s`;
- a table records which templates share a channel;
- lookup tables turn the position of a maximum in an upsampled objective window into a variant and a one-sample time correction.

A recording segment then goes through a greedy loop:

- **Objective.** The objective is `2 * conv - norm`, one row per base unit. It is computed once, behind a latch.
- **Finding peaks.** Each step finds the local maxima of the column maxima that exceed the threshold and leave room for a template.
- **Choosing unit and variant.** Each peak takes its best unit. The resampled window around it chooses the variant; a window that touches a switched-off cell drops the peak and switches off a refractory stretch instead.
- **Subtraction.** The spikes found are subtracted through the pairwise-convolution tables, and their refractory cells are set to minus infinity.
- **Ending.** The loop ends when a step finds nothing or after `max_iter` steps. The train is then sorted by time, clipped to the segment without its buffers, and moved to recording time.

## Residuals

- The residual takes every unit's template out of the recording at its spike times.
- A unit's clean spikes add the unit's template back.
- The parallel residual cuts the recording into chunks of 200 000 rows, each with a 200-row buffer on both sides. Each chunk is derasterized on its own; in subtract_parallel's loop every write is applied a second time to a zero array. The chunks' middles are then added into a zeroed recording.

## Modelling choices

- Objective values are extended reals (`ExtReal`), so that minus infinity is a value.
- numpy fancy-index `-=` with repeated indices is modelled as last write wins (`ArrayOps.Put`, `ArrayOps.LastWrite`).
- Python's negative indices are modelled by `ArrayOps.Wrap`.
- The numeric kernels are parameters of the model. These are SVD, `np.convolve`, `scipy.signal.resample`, `scipy.signal.argrelmax` and the zoomed `argmax`. The model states only what the engine relies on about them.

Modules follow the program: `TemplateBank`, `Upsampling`, `EngineConfig`, `Objective`, `PeakFinder`, `Subtraction`, `Greedy`, `Residual`, `Chunks`, `Partition`, and the helpers `ArrayOps`, `SpikeTrain`, `ExtReal`, `Outcome`.

## Model

| member | source | states |
|---|---|---|
| TemplateBank.VisibleIff | src/yass/deconvolute/match_pursuit.py:167-171 | a channel is visible for a unit exactly when the unit's peak-to-peak swing on it exceeds the visibility threshold |
| TemplateBank.VisibleChans | src/yass/deconvolute/match_pursuit.py:167-171 | a cached mask is returned unchanged; without one, a cell is set exactly when that channel's swing exceeds the threshold |
| TemplateBank.MaskTemplates | src/yass/deconvolute/match_pursuit.py:183-187 | masked templates keep every sample on a visible channel and are zero on every invisible one |
| TemplateBank.MaskIdempotent | src/yass/deconvolute/match_pursuit.py:183-187 | masking twice with the same mask is masking once |
| TemplateBank.MaskKeepsVisibility | src/yass/deconvolute/match_pursuit.py:167-187 | recomputing visibility on the masked templates gives back the same mask |
| TemplateBank.SharedChannels | src/yass/deconvolute/match_pursuit.py:177-178 | the count of channels two units share is positive exactly when some channel is visible to both |
| TemplateBank.BaseOverlap | src/yass/deconvolute/match_pursuit.py:174-179 | two base units overlap exactly when they share a visible channel; the relation is symmetric |
| TemplateBank.UnitOverlap | src/yass/deconvolute/match_pursuit.py:174-180 | the overlap table has one row per upsampled unit |
| TemplateBank.UnitOverlapRow | src/yass/deconvolute/match_pursuit.py:174-180 | the row of upsampled unit `p` is the base row of its parent unit `p / F` |
| TemplateBank.UnitLayout | src/yass/deconvolute/match_pursuit.py:96-98 | the ids `k * F + s` for the base unit `k` and variant `s` cover `0 .. K*F-1` one to one, and `orig_template_idx` lists variant 0 of each unit |
| TemplateBank.OrigTemplateIdxLen | src/yass/deconvolute/match_pursuit.py:98 | `orig_template_idx` has one entry per base unit |
| Upsampling.UpWindow | src/yass/deconvolute/match_pursuit.py:125-127 | the window around a peak runs over `radius + 1` offsets on each side of it, including zero |
| Upsampling.ZoomIndex | src/yass/deconvolute/match_pursuit.py:125-130 | the zoom rows are the `2 * radius` rows of the resampled window centred on the sample of the peak |
| Upsampling.ZoomInsideWindow | src/yass/deconvolute/match_pursuit.py:403-406 | every zoom row is a row of the resampled window |
| Upsampling.PeakToTemplateIdx | src/yass/deconvolute/match_pursuit.py:128-137 | the variant table has `F + 1` entries; its entries after the first rotate the variants by `radius + off`, and the first repeats the second less `off` |
| Upsampling.RotationForm | src/yass/deconvolute/match_pursuit.py:131-133 | the table before padding is the rotation `q -> (q + radius + off) mod F` of the variants |
| Upsampling.VariantInRange | src/yass/deconvolute/match_pursuit.py:128-137 | every entry is a variant of the unit, except the first entry when the factor is 2, which is -1 |
| Upsampling.PeakTimeJitter | src/yass/deconvolute/match_pursuit.py:138-140 | the time correction is 1 on the first `radius` positions and 0 after them, and 0 everywhere when the radius is below two |
| Upsampling.JitterIsBit | src/yass/deconvolute/match_pursuit.py:138-140 | every time correction is 0 or 1 |
| Upsampling.ShiftLookupTotal | src/yass/deconvolute/match_pursuit.py:405-407 | every argmax over the zoom rows indexes both lookup tables |
| Upsampling.VariantPattern | src/yass/deconvolute/match_pursuit.py:291-295 | the pattern maps variant 0 to itself and reverses the others |
| Upsampling.ReorderIdx | src/yass/deconvolute/match_pursuit.py:291-298 | the reordering has one entry per upsampled unit |
| Upsampling.ReorderAt | src/yass/deconvolute/match_pursuit.py:291-298 | entry `p` keeps the parent unit of `p` and reverses its variant |
| Upsampling.ReorderSplit | src/yass/deconvolute/match_pursuit.py:291-298 | the entry at id `k * F + s` is the id of the same unit with the reversed variant |
| Upsampling.ReorderInvolution | src/yass/deconvolute/match_pursuit.py:286-299 | the reordering stays inside each unit's block and undoes itself when applied twice |
| Upsampling.ReorderTwice | src/yass/deconvolute/match_pursuit.py:291-298 | one id read through the reordering twice comes back to itself |
| Upsampling.Gathered | src/yass/deconvolute/match_pursuit.py:278-283 | the down-sampled templates form one template per upsampled unit, of the original length and channel count |
| Upsampling.UpsampledTemplates | src/yass/deconvolute/match_pursuit.py:276-299 | the result has one template per upsampled unit, and `n_unit` is multiplied by the factor on each call |
| Upsampling.UpsampledTemplatesAt | src/yass/deconvolute/match_pursuit.py:276-299 | sample `t` of the template returned for unit `k` and variant `s` is sample `t * F + reversed(s)` of unit `k`'s resampled template |
| Upsampling.CorrectShift | src/yass/deconvolute/match_pursuit.py:302-311 | each spike whose variant is not 0 is moved one sample later; the ids are unchanged |
| EngineConfig.AdjustedRefrac | src/yass/deconvolute/match_pursuit.py:145-146 | the adjusted refractory radius is at least one, and is the refractory period less half the factor whenever that is larger |
| Objective.ComputeObjective | src/yass/deconvolute/match_pursuit.py:344-366 | once computed, the objective is returned unchanged; otherwise each cell is twice the rank sum of the unit's convolutions less its norm, and the latch is set |
| Objective.MaxRows | src/yass/deconvolute/match_pursuit.py:412 | the maximum over the first rows of a column bounds every one of them and is attained |
| Objective.ColumnMax | src/yass/deconvolute/match_pursuit.py:412 | each column maximum is an upper bound of the column, and some unit attains it |
| Objective.ArgmaxRows | src/yass/deconvolute/match_pursuit.py:425 | the chosen row is maximal in its column, and no earlier row ties it |
| Objective.ArgmaxAt | src/yass/deconvolute/match_pursuit.py:425 | the unit chosen for a column attains the column maximum, and it is the first unit that does |
| Objective.SwitchOff | src/yass/deconvolute/match_pursuit.py:398 | switching off leaves the objective's shape, and each row is that row switched off |
| Objective.SwitchOffAt | src/yass/deconvolute/match_pursuit.py:398 | a cell becomes minus infinity exactly when it is listed, and every other cell is unchanged |
| Objective.SwitchOffRow | src/yass/deconvolute/match_pursuit.py:398 | a row cell becomes minus infinity exactly when its unit and time are listed |
| PeakFinder.Candidates | src/yass/deconvolute/match_pursuit.py:412-422 | a column is a candidate exactly when it is a local maximum of the column maxima, lies above the threshold, and leaves room for a template before the data ends |
| PeakFinder.WindowInside | src/yass/deconvolute/match_pursuit.py:389-398 | the upsampling window and the refractory stretch around a candidate stay inside the objective row |
| PeakFinder.PeakWindow | src/yass/deconvolute/match_pursuit.py:389-390 | the window read for a candidate holds the objective of its unit at each window offset around it |
| PeakFinder.PeakWindowOffsets | src/yass/deconvolute/match_pursuit.py:389-390 | entry `i` of the window is the objective at the candidate plus offset `i` |
| PeakFinder.TurnOffCells | src/yass/deconvolute/match_pursuit.py:396-398 | a dropped candidate switches off its unit from `refrac_period` samples before it up to itself |
| PeakFinder.Resolve | src/yass/deconvolute/match_pursuit.py:387-407 | a candidate is dropped exactly when the first or last entry of its window is minus infinity; otherwise it takes the best unit, and with upsampling its variant is `peak_to_template_idx` and its time correction `peak_time_jitter` at the argmax of its zoomed window; without upsampling both are 0 |
| PeakFinder.Scan | src/yass/deconvolute/match_pursuit.py:387-407 | every resolved peak comes from a candidate and stays in range; without upsampling every candidate is kept and nothing is switched off |
| PeakFinder.ScanSound | src/yass/deconvolute/match_pursuit.py:387-407 | every peak kept is the resolution of one of the candidates |
| PeakFinder.ScanComplete | src/yass/deconvolute/match_pursuit.py:387-407 | every candidate that resolves to a peak is kept |
| PeakFinder.ScanCells | src/yass/deconvolute/match_pursuit.py:393-398 | a cell is switched off exactly when it is in the refractory stretch of some dropped candidate |
| PeakFinder.FindPeaks | src/yass/deconvolute/match_pursuit.py:410-436 | the step returns one spike and one distance per kept peak; each spike has time `column - jitter - n_time + 1` and id `unit * F + variant` of its peak; every distance lies above the threshold |
| PeakFinder.FindPeaksSound | src/yass/deconvolute/match_pursuit.py:410-436 | every peak found is a candidate column that resolves to exactly that peak, and its distance is the column maximum there |
| PeakFinder.FindPeaksComplete | src/yass/deconvolute/match_pursuit.py:410-436 | every candidate that resolves to a peak is found |
| PeakFinder.FindPeaksSwitchesOff | src/yass/deconvolute/match_pursuit.py:396-398 | after a step, a cell is minus infinity when a dropped candidate switched it off, and keeps its value otherwise |
| PeakFinder.FindPeaksWithoutUpsampling | src/yass/deconvolute/match_pursuit.py:387-388 | with factor 1, every candidate becomes a spike and the objective is left alone |
| PeakFinder.Spikes | src/yass/deconvolute/match_pursuit.py:428-434 | each peak becomes one spike row, in the order of the peaks |
| PeakFinder.Dists | src/yass/deconvolute/match_pursuit.py:415-421 | each peak's distance is the column maximum at its column and lies above the threshold |
| PeakFinder.SpikeBounds | src/yass/deconvolute/match_pursuit.py:428-434 | a found spike's time lies in `-n_time .. data_len - 2 * n_time`, and its id names an upsampled unit, or is -1 only when the factor is 2 |
| PeakFinder.SpikeUnit | src/yass/deconvolute/match_pursuit.py:428 | with a factor other than 2, an emitted id divided by the factor gives back the chosen base unit, and the remainder gives back the variant; with factor 2 a peak taking the table entry -1 is emitted as variant 1 of the unit before it |
| Subtraction.UnitRow | src/yass/deconvolute/match_pursuit.py:450 | an upsampled id maps to the row of a base unit |
| Subtraction.RefractoryCellsOf | src/yass/deconvolute/match_pursuit.py:441-451 | a spike switches off `2 * adjusted - 2` cells of its base unit's row, at the objective times strictly inside its refractory window |
| Subtraction.RefractoryCells | src/yass/deconvolute/match_pursuit.py:441-451 | a cell is switched off exactly when it is a refractory cell of some spike of the train |
| Subtraction.EnforceRefractory | src/yass/deconvolute/match_pursuit.py:439-451 | a cell becomes minus infinity exactly when it is a refractory cell of the train, and is unchanged otherwise |
| Subtraction.RefractoryNoOpAtOne | src/yass/deconvolute/match_pursuit.py:441-451 | with an adjusted radius of one the window has no inner cells, so the objective is untouched |
| Subtraction.SubtractColumns | src/yass/deconvolute/match_pursuit.py:460 | every spike contributes `2 * n_time - 1` columns |
| Subtraction.ColumnsInBounds | src/yass/deconvolute/match_pursuit.py:460-465 | every column a spike of the train subtracts at lies inside the objective row |
| Subtraction.SubtractRow | src/yass/deconvolute/match_pursuit.py:465 | columns no spike reaches are unchanged; a reached column takes the value of its last write |
| Subtraction.SubtractUnit | src/yass/deconvolute/match_pursuit.py:457-465 | subtracting one unit's spikes leaves unchanged every row of a unit that shares no channel with it, and every column none of its spikes reaches |
| Subtraction.SubtractUnitAt | src/yass/deconvolute/match_pursuit.py:457-465 | the value at a reached cell is its last write: the old value less twice the pairwise convolution |
| Subtraction.HitReaches | src/yass/deconvolute/match_pursuit.py:460-465 | a column is written exactly when some spike and some lag reach it |
| Subtraction.SubtrainInRange | src/yass/deconvolute/match_pursuit.py:459 | the spikes of one unit are in range whenever the whole train is |
| Subtraction.UnitPassFrame | src/yass/deconvolute/match_pursuit.py:457-465 | a unit's pass leaves every cell that none of its spikes touches unchanged |
| Subtraction.SubtractUnits | src/yass/deconvolute/match_pursuit.py:456-465 | after all units' passes, a cell no spike of an overlapping unit reaches keeps its value |
| Subtraction.SubtractSpikeTrain | src/yass/deconvolute/match_pursuit.py:454-467 | afterwards every refractory cell of the train is minus infinity, and every other cell that no spike touches keeps its value |
| Greedy.StepInRange | src/yass/deconvolute/match_pursuit.py:410-436 | every spike a step finds has a time inside the segment less a template and an id in `-1 .. n_unit-1` |
| Greedy.Step | src/yass/deconvolute/match_pursuit.py:510-522 | one iteration keeps the objective's shape, has one distance per spike, finds spikes in range, and only distances above the threshold |
| Greedy.StepCell | src/yass/deconvolute/match_pursuit.py:511-518 | an iteration keeps the spikes and distances `find_peaks` found; an objective cell changes only when a dropped candidate switched it off, a found spike's subtraction reached it, or it lies in a found spike's refractory stretch; refractory cells, and switched-off cells no subtraction reached, end at minus infinity |
| Greedy.EngineStepKeeps | src/yass/deconvolute/match_pursuit.py:508-528 | the engine's iteration can run on every objective of the right shape and keeps the loop's invariant |
| Greedy.Pursue | src/yass/deconvolute/match_pursuit.py:508-528 | the loop runs at most `max_iter` productive steps; each adds at least one spike; the train is empty exactly when no step was productive; all spikes are in range and all distances are above the threshold |
| Greedy.LoopStep | src/yass/deconvolute/match_pursuit.py:510-528 | one more productive step places its spikes and distances before those of the rest of the run |
| Greedy.Loop | src/yass/deconvolute/match_pursuit.py:508-528 | the while loop computes exactly the recursive pursuit: same train, distances, objective and step count |
| Greedy.PursuitLoop | src/yass/deconvolute/match_pursuit.py:508-528 | the engine's loop returns the pursuit of its own iteration for `max_iter` steps |
| Greedy.NoStepsNoSpikes | src/yass/deconvolute/match_pursuit.py:510 | with `max_iter` zero the loop finds nothing and leaves the objective alone |
| Greedy.Finalize | src/yass/deconvolute/match_pursuit.py:535-546 | the finished train is sorted by time |
| Greedy.FinalizeSound | src/yass/deconvolute/match_pursuit.py:535-546 | every row of the finished train is a row of the loop's train that lay in the window, moved by `idx_list[0] - idx_list[2]` |
| Greedy.FinalizeComplete | src/yass/deconvolute/match_pursuit.py:535-546 | every row of the loop's train that lay in the window appears in the finished train, moved |
| Greedy.FinalizeKeepsRows | src/yass/deconvolute/match_pursuit.py:535-546 | the finished train holds every window row of the loop's train, moved, exactly as often as the train holds it: no row is dropped or duplicated, and it has as many rows as the window |
| SpikeTrain.InsertByTime | src/yass/deconvolute/match_pursuit.py:537-538 | inserting into a sorted train keeps it sorted and adds exactly the one row |
| SpikeTrain.SortByTime | src/yass/deconvolute/match_pursuit.py:537-538 | the result is sorted by time and is a permutation of the train |
| SpikeTrain.InWindow | src/yass/deconvolute/match_pursuit.py:541-543 | a row is kept exactly when it is in the train and its time lies in `[lo, hi)` |
| SpikeTrain.InWindowSub | src/yass/deconvolute/match_pursuit.py:541-543 | the kept rows are a sub-multiset of the train |
| SpikeTrain.InWindowSorted | src/yass/deconvolute/match_pursuit.py:541-543 | clipping a sorted train keeps it sorted |
| SpikeTrain.ShiftTimes | src/yass/deconvolute/match_pursuit.py:546 | every row is moved by the same amount and keeps its id |
| SpikeTrain.ShiftTimesSorted | src/yass/deconvolute/match_pursuit.py:546 | moving all times by one amount keeps a train sorted |
| SpikeTrain.MovedWindowSource | src/yass/deconvolute/match_pursuit.py:541-546 | every row of a clipped and moved train comes from a row of the train inside the window |
| SpikeTrain.MovedWindowHolds | src/yass/deconvolute/match_pursuit.py:541-546 | every row inside the window appears in the clipped and moved train |
| SpikeTrain.OfUnit | src/yass/deconvolute/match_pursuit.py:459 | a row is selected exactly when it is in the train and carries the unit's id |
| SpikeTrain.OfUnitAt | src/yass/deconvolute/match_pursuit.py:459 | every selected row is a row of the train with the unit's id |
| SpikeTrain.Windows | src/yass/deconvolute/match_pursuit.py:460 | the broadcast window has `width` positions per spike |
| SpikeTrain.WindowAt | src/yass/deconvolute/match_pursuit.py:460 | position `p` of the flattened windows is spike `p / w`'s time plus lag `p % w` |
| SpikeTrain.WindowOf | src/yass/deconvolute/match_pursuit.py:460 | every spike and lag pair has its position in the flattened windows |
| SpikeTrain.WindowsBroadcast | src/yass/deconvolute/match_pursuit.py:460 | the windows equal the outer sum of the spike times and the lags, flattened row by row |
| Residual.Zeros | src/yass/deconvolute/match_pursuit.py:695 | a zero array of the given shape |
| Residual.RowMinus | src/yass/deconvolute/match_pursuit.py:580 | subtraction of a template row keeps the row's length |
| Residual.RowPlus | src/yass/deconvolute/match_pursuit.py:590 | adding a template row keeps the row's length |
| Residual.WindowsFit | src/yass/deconvolute/match_pursuit.py:580 | every row a spike's template is written to lies inside the recording |
| Residual.UnitFits | src/yass/deconvolute/match_pursuit.py:579-580 | the spikes of one unit fit the recording whenever the whole train does |
| Residual.SubtractTemplate | src/yass/deconvolute/match_pursuit.py:579-580 | one unit's subtraction keeps the recording's shape |
| Residual.SubtractTemplateAt | src/yass/deconvolute/match_pursuit.py:579-580 | a row written last by window position `p` is the old row less the template sample at lag `p % n_time` |
| Residual.SubtractTemplateFrame | src/yass/deconvolute/match_pursuit.py:579-580 | a row none of the unit's spikes covers is unchanged |
| Residual.SubtractTemplateShift | src/yass/deconvolute/match_pursuit.py:579-580 | one unit's pass moves every cell by the same amount as when the pass runs on a zero recording |
| Residual.Derasterize | src/yass/deconvolute/match_pursuit.py:571-580 | derasterizing the first `n` units keeps the recording's shape |
| Residual.ComputeResidual | src/yass/deconvolute/match_pursuit.py:571-580 | the residual keeps the recording's shape |
| Residual.DerasterizeShift | src/yass/deconvolute/match_pursuit.py:571-580 | the residual is the recording plus the residual of a zero recording, cell by cell: the subtraction does not depend on the data |
| Residual.DerasterizeFrame | src/yass/deconvolute/match_pursuit.py:571-580 | a row no spike of any unit covers is the recording's row |
| Residual.DerasterizeIsolated | src/yass/deconvolute/match_pursuit.py:571-580 | a row covered by exactly one spike is the recording's row less that spike's template sample |
| Residual.GetUnitSpikes | src/yass/deconvolute/match_pursuit.py:585-591 | one clip of `n_time` by `n_chan` per spike |
| Residual.UnitSpikeRecoversData | src/yass/deconvolute/match_pursuit.py:571-591 | on a row only one spike covers, adding that spike's template back to the residual gives back the recording |
| Chunks.ChunkIndexes | src/yass/deconvolute/match_pursuit.py:620-644 | chunk `j` spans `[j * len, j * len + len + 2 * buffer)`, and every chunk after the first starts more than two buffers before the end |
| Chunks.ChunksCover | src/yass/deconvolute/match_pursuit.py:624-644 | the last chunk reaches the end of the recording |
| Chunks.ExactChunks | src/yass/deconvolute/match_pursuit.py:636-644 | a recording of `m` chunk lengths plus two buffers is cut into `m` chunks, the last ending exactly at its end |
| Chunks.Owner | src/yass/deconvolute/match_pursuit.py:631-649 | a time lies in chunk `j`'s middle exactly when `(t - buffer) / len == j` |
| Chunks.ChunkTrainMembers | src/yass/deconvolute/match_pursuit.py:631-652 | a chunk's train holds exactly the spikes of its middle, moved to chunk time |
| Chunks.OneChunkPerSpike | src/yass/deconvolute/match_pursuit.py:631-652 | a spike goes to the chunk its time owns |
| Chunks.BufferCount | src/yass/deconvolute/match_pursuit.py:704-705 | a row lies in at most two buffer slices |
| Chunks.SubtractParallel | src/yass/deconvolute/match_pursuit.py:686-707 | a chunk's result keeps its shape |
| Chunks.SubtractParallelAt | src/yass/deconvolute/match_pursuit.py:686-707 | a chunk row in no buffer is fully subtracted; in one buffer it is the data unchanged; in both buffers the subtraction is reversed |
| Chunks.SubtractParallelRows | src/yass/deconvolute/match_pursuit.py:691-707 | with a chunk at least two buffers long, the buffer rows come back as they went in and the middle rows are the chunk's residual |
| Chunks.Clip | src/yass/deconvolute/match_pursuit.py:641-682 | a slice bound is clipped into `0 .. n` and left alone when already inside |
| Chunks.NegStop | src/yass/deconvolute/match_pursuit.py:682 | the stop `-buffer` of a slice resolves inside the array |
| Chunks.ChunkData | src/yass/deconvolute/match_pursuit.py:641 | a chunk's data is the recording's rows from the chunk's start, clipped to the recording |
| Chunks.Layout | src/yass/deconvolute/match_pursuit.py:620-652 | the engine cuts at least one chunk, each starting inside the recording |
| Chunks.ChunkResidual | src/yass/deconvolute/match_pursuit.py:662-673 | a chunk's residual, when it succeeds, has the chunk's shape |
| Chunks.ChunkResiduals | src/yass/deconvolute/match_pursuit.py:662-673 | one result per chunk, in chunk order |
| Chunks.Collect | src/yass/deconvolute/match_pursuit.py:662-666 | the collection succeeds exactly when every chunk does, and then holds their values in order |
| Chunks.CollectedShapes | src/yass/deconvolute/match_pursuit.py:662-673 | every collected chunk residual has its chunk's shape |
| Chunks.StitchStep | src/yass/deconvolute/match_pursuit.py:682 | adding one chunk's middle keeps the recording's shape, when the two slices agree in length |
| Chunks.Stitch | src/yass/deconvolute/match_pursuit.py:676-682 | stitching, when it succeeds, gives back an array of the recording's shape |
| Chunks.ComputeResidualParallel | src/yass/deconvolute/match_pursuit.py:593-682 | the parallel residual, when it succeeds, has the recording's shape |
| Chunks.MiddleAdd | src/yass/deconvolute/match_pursuit.py:682 | the corrected stitch of one chunk keeps the recording's shape |
| Chunks.MiddleAddAt | src/yass/deconvolute/match_pursuit.py:682 | a row in a chunk's middle gains that chunk's residual row, and every other row is unchanged |
| Chunks.StepAgrees | src/yass/deconvolute/match_pursuit.py:682 | when the slice lengths agree, the as-written step and the corrected step give the same array |
| Chunks.StitchFixed | src/yass/deconvolute/match_pursuit.py:676-682 | the corrected stitch has the recording's shape |
| Chunks.StitchFixedAt | src/yass/deconvolute/match_pursuit.py:676-682 | each cell of the corrected stitch is the residual value of the chunk whose middle owns its row, or zero |
| Chunks.ComputeResidualParallelFixed | src/yass/deconvolute/match_pursuit.py:593-682 | the corrected parallel residual, when it succeeds, has the recording's shape |
| Chunks.ChunksSucceed | src/yass/deconvolute/match_pursuit.py:662-673 | on a recording with a train that fits, every chunk succeeds and the corrected result is their stitch |
| Chunks.MiddleRow | src/yass/deconvolute/match_pursuit.py:686-707 | a row in a chunk's middle takes its value from that chunk's residual |
| Chunks.MiddleValue | src/yass/deconvolute/match_pursuit.py:676-682 | the stitched value of a row is the residual its owning chunk computes there |
| Chunks.ParallelFixedRows | src/yass/deconvolute/match_pursuit.py:593-707 | the corrected parallel residual succeeds; outside the first and last buffer it equals the chunk residual of the row's owner, and inside them it is zero |
| Chunks.StitchAgrees | src/yass/deconvolute/match_pursuit.py:676-682 | when every slice length agrees, the as-written stitch and the corrected stitch give the same array |
| Chunks.ExactShapes | src/yass/deconvolute/match_pursuit.py:624-682 | on a recording of whole chunks plus two buffers, every chunk's two slices agree in length |
| Chunks.ExactFitAgrees | src/yass/deconvolute/match_pursuit.py:593-682 | on such a recording the as-written and corrected parallel residuals are equal |
| Chunks.StitchFailsAt | src/yass/deconvolute/match_pursuit.py:682 | a chunk whose two slices differ in length makes the as-written stitch fail |
| Chunks.RaggedRecordingFails | src/yass/deconvolute/match_pursuit.py:620-682 | a recording whose last chunk is cut short makes the as-written parallel residual fail |
| Partition.Kept | src/yass/cluster/util.py:65 | the kept indexes are increasing, and an index is kept exactly when its row's time is below `max_time` |
| Partition.Units | src/yass/cluster/util.py:68-69 | every unit id is below the number of units, and when that number is positive some row carries the largest id |
| Partition.Slot | src/yass/cluster/util.py:72 | a Python list index names a slot exactly when it lies in `-n .. n-1`, counting negative ones from the end |
| Partition.Members | src/yass/cluster/util.py:69-72 | a row lands in unit `u`'s list exactly when it is kept and its id names slot `u`, in the order the rows are kept |
| Partition.Grouped | src/yass/cluster/util.py:69-79 | grouping succeeds exactly when every kept row has a column entry and an id that names a list |
| Partition.Group | src/yass/cluster/util.py:69-79 | the append loop computes exactly the grouping: the same lists, or the same failure |
| Partition.ListsAligned | src/yass/cluster/util.py:69-79 | a unit's times and up ids are aligned, one entry per kept row of the unit |
| Partition.Remap | src/yass/cluster/util.py:90-93 | renumbering succeeds exactly when every up id indexes `templates_up`; each renumbered id then points at the template of its old id |
| Partition.UniqueInBounds | src/yass/cluster/util.py:90-91 | the distinct ids index `templates_up` whenever every id does |
| Partition.RemapRoundTrip | src/yass/cluster/util.py:90-93 | reading a renumbered id back through the distinct ids gives the old id, and its template is the old id's template |
| Partition.RemapMonotone | src/yass/cluster/util.py:90-93 | renumbering keeps the order and the equality of ids |
| Partition.RemapDense | src/yass/cluster/util.py:90-93 | every new id below the number of distinct ids is used |
| Partition.RemapAsWritten | src/yass/cluster/util.py:90-91 | with no ids the source fails, and otherwise it renumbers |
| Partition.RemapAll | src/yass/cluster/util.py:85-93 | the renumbering of all units succeeds exactly when each unit's does, one result per unit |
| Partition.PartitionInput | src/yass/cluster/util.py:50-105 | the partition as written succeeds exactly under its indexing conditions, and fails with upsampled data whenever some unit keeps no spike |
| Partition.PartitionInputFixed | src/yass/cluster/util.py:50-105 | the corrected partition succeeds exactly under the indexing conditions, whatever units keep no spike |
| Partition.PartitionShape | src/yass/cluster/util.py:50-105 | unit ids are `0 .. n_units-1`; each unit's times are the kept times of its rows in order, and its up ids are those rows' renumbered up ids |
| Partition.EmptyUnitRaises | src/yass/cluster/util.py:89-91 | rows `(10, 0)` and `(500, 1)` with `max_time` 100 and upsampled data make the as-written partition fail |
| Partition.EmptyUnitFixed | src/yass/cluster/util.py:89-93 | on the same input the corrected partition succeeds, and unit 1's part is empty |
| Partition.NonEmpty | src/yass/cluster/util.py:125-132 | exactly the files with at least one template are kept |
| Partition.BlockRows | src/yass/cluster/util.py:145-147 | unit `k`'s rows pair each of its times with `k` |
| Partition.Flatten | src/yass/cluster/util.py:142-148 | the flattened train has one row per spike time of every unit |
| Partition.Gather | src/yass/cluster/util.py:107-148 | gathering fails exactly when no file has a template, and otherwise writes one row per spike time of the kept files |
| Partition.FlattenRegroups | src/yass/cluster/util.py:142-148 | regrouping the flattened train by id gives back each unit's times in order, and nothing for any other id |
| Partition.FlattenRowsSound | src/yass/cluster/util.py:142-148 | every row of the flattened train is a spike time of the unit its id names |
| Partition.GatherRegroups | src/yass/cluster/util.py:120-148 | the gathered train regrouped by id gives back the spike times of every unit of the kept files |

## Left out

- The numeric kernels are parameters of the model, so their numerics are not modelled: the SVD of `compress_templates`, `np.convolve`, `scipy.signal.resample`, `scipy.signal.argrelmax` and the zoomed argmax. The model states only what the engine relies on: the positions they return lie inside their input.
- Floating point: samples are reals, and `float32` rounding is not modelled.
- I/O is not modelled:
  - `np.save`, `np.savez` and `np.load`;
  - `binary_reader`;
  - the pairwise-convolution cache file;
  - the directories the partition and gather steps create;
  - any partition file written before a failure.
- `parmap`, `tqdm`, `print`, logging and timing are side effects with no effect on the results, and are not modelled.
- `pairwise_filter_conv`, `compress_templates` and `get_reconstructed_upsampled_templates` only compute tables. The pairwise convolutions are an input of the model.
- `make_CONFIG2`, `get_normalized_templates` and the other utilities outside `partition_input` and `gather_clustering_result` are outside the modelled core. So are `templates/run.py` and `detect.py`.
- Greedy.Pursue: `tot_max` is set to infinity and never lowered, so the threshold test in the loop condition never ends the loop. The model therefore ends the loop only on an empty step or after `max_iter` steps.
- Greedy.Finalize: the source's `argsort` is an unstable quicksort, while the model sorts stably, so rows with equal times may come out in another order. The contracts state what any ordering guarantees: the result is sorted, and it holds the window rows of the train, moved, each exactly as often as the train does (`Greedy.FinalizeKeepsRows`).
- EngineConfig.Valid: the model takes only configurations with `radius < 2 * n_time` and `refrac_period <= 2 * n_time` (besides positive sizes).
  - With a larger radius, `self.obj[unit_ids, idx]` reads past the objective row for a candidate near `data_len - n_time`, and numpy raises `IndexError`. That error path is not modelled.
  - The refractory bound is stricter than numpy needs. With factor `F`, `enforce_refractory` works on `max(1, refrac_period - F // 2)` and stays inside the row up to `refrac_period = 2 * n_time + 1 + F // 2`.
  - `turn_off_idx` stays inside the row while `refrac_period <= data_len + n_time - 1`.
  - Configurations with `radius < 2 * n_time` and `2 * n_time < refrac_period` within both of these bounds index only inside the objective in the source, but are not modelled.
- Residual.ComputeResidual: requires every spike window `time .. time + n_time - 1` of a unit in the bank to lie in numpy's accepted range (`Fits`). On a spike with `time + n_time > len(data)` the source raises `IndexError`; this model does not return a failure there (`Chunks.ChunkResidual` does, with the same condition).
- Residual.GetUnitSpikes: requires every window of `unit_sp` to fit the recording (`SpikesFit`) and `unit` to lie in `-n_unit .. n_unit - 1`. The source's `IndexError` is not modelled, either on a window past the end or on `self.temps[:, :, unit]` with any other unit.
- Chunks.ComputeResidualParallelFixed: its rows are stated through each chunk's own residual (`Chunks.ParallelFixedRows`), not through `Residual.ComputeResidual` on the whole recording. The two differ where a spike of one chunk has a template window reaching into a neighbouring chunk's middle: that part is subtracted only inside its own chunk, whose buffer is then cut away.
- `dist_metric` is not reordered or clipped together with the spike train at the end of `run`. The model keeps it in the order the loop found it, as the code does.
- Partition.Gather: the `int32` casts of the written train are not modelled (times are unbounded integers), and `np.vstack` requiring equal template shapes beyond the first axis is not modelled.
- Partition.Gather: `np.array(spike_indexes)` of units with different spike counts is taken as a list of arrays. With equal counts, numpy builds a 2-D array, which behaves the same under the loop.
- Partition.Gather: the files are taken in the order `sorted(os.listdir(...))` gives them. That order is an input of the model.
- `get_upsampled_templates` multiplies `n_unit` by the factor on every call. This is modelled (`Upsampling.UpsampledTemplates` returns the new count), but no caller is modelled.

## Findings

| source | as written | input that shows it | evidently intended | confidence | as-written member | corrected member |
|---|---|---|---|---|---|---|
| src/yass/deconvolute/match_pursuit.py:678-682 | the loop adds `res[k][buffer:-buffer]` into `data[start+buffer:end-buffer]`, and the destination slice is clipped at the end of the recording | a recording of `200000 + 400 + 2` rows: the second chunk holds 402 rows, so `res[1][200:-200]` has 2 rows while `data[200200:400200]` has 202, and numpy raises | each chunk's middle lands on the recording rows it came from, and a short last chunk adds only the rows it has; `Chunks.ParallelFixedRows` proves every row between the outer buffers then holds its own chunk's residual | not executed | Chunks.RaggedRecordingFails | Chunks.ComputeResidualParallelFixed |
| src/yass/cluster/util.py:89-91 | with upsampled data, `np.unique([])` of a unit that keeps no spike is a float array, and `templates_up[...]` indexed by it raises `IndexError` | rows `(10, 0)` and `(500, 1)`, `max_time` 100, up ids `[3, 4]`, five templates: unit 1 keeps no spike | a unit with no kept spike gets empty up ids and no templates; `Partition.PartitionInputFixed` then succeeds exactly when every index is valid | not executed | Partition.EmptyUnitRaises | Partition.EmptyUnitFixed |
