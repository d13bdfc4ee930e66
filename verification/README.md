# Proofs about the portal's derivation code and the analysis scripts

This project models the parts of the repository whose results are hard to see from one body of code: the packed-cloud
layout and the terrain of the console, the model poller, label placement, the answer-trail graph, the library order, the
note frontmatter, the work-queue estimate, and four Python analysis scripts. Each source file has its own module. What
the source does step by step is a method or a class with loops; each is proved against a specification, and the
properties are lemmas over every input, every event stream or every run. Beside each specification stand lemmas that say
what it comes to in the inputs' own terms: positions in a list, cells of a table, coordinates, bytes.

| module | what it models |
|---|---|
| `CommunityOrder`, `PackedCloud` | `radialAnchors`: the affinity-greedy order, the spiral search, the outer ring |
| `TerrainField`, `Terrain`, `TerrainMesh`, `TerrainEdge` | the blur, the weighted density, the normaliser cache, the interpolated height and the reshaping of the land; where points lie on the mesh; the land of one point |
| `ToolScan`, `ToolItems` | the error-to-fix counters of the Claude and Codex transcript scanners, over resolved results and over transcript positions |
| `ExtractObj` | finding the first JSON object in a model's answer |
| `ModelPoller` | the `ModelProvider` effect: loads, the adaptive timer, focus and refresh events, unmount |
| `MarkdownLinks`, `SourceSpans`, `ParagraphBlocks`, `CoverageCase`, `Utf8`, `Excerpt` | gold anchors, paragraph blocks, coverage and excerpts over UTF-8 bytes (section 3 of RFC 3629) |
| `LabelPlacement` | the label pass over one frame of the knowledge graph |
| `Frontmatter`, `FrontmatterStyles` | cutting off and parsing note frontmatter, and every style of writing it |
| `ProcessGraph` | folding hits and citations into the answer-trail graph, and handing positions over |
| `LibraryOrder` | filtering and the browse order of the library |
| `QueueEta` | the recency-weighted average and the time-to-drain estimate |
| `StableSort`, `Lexicographic`, `Strings`, `JsText`, `PythonText`, `Collections`, `Reals`, `Options` | the library routines these rest on |

Arithmetic is over `real`. Functions of the host's libraries are parameters, and a predicate lists all that is used of
them: `RealMath.Lawful` (cosine and sine lie on the unit circle, square root and `hypot` are what they are called),
`PackedCloud.TurnsOnce` (a direction determines its angle within one turn), `exp` is positive and, where said, increasing,
`QueueEta.HalvingPower` (positive, turns sums into products, strictly falls), and
`Terrain.DaysFollowDates` (day numbers follow the order of the date strings). `NFKC` folding is any function from a
character to a string, and the canvas's text measure is any function from a text to a width. JavaScript's `sort` is
given a body, and `StableSort.SortIsTheStableSort` shows that every stable sorting routine returns the same.

## Where the code differs from what is written about it

- The Codex scanner's clusters are not the runs its docstring describes (`scripts/skill_s1_scan.py:11-14`): a failure
  that follows a success while an older failure is still open begins a run and is not counted. `CodexClusters` gives the
  exact difference and `CodexUndercounts` an input. The Claude scanner does count the runs.
- `find_span` promises a byte range in `source` but computes offsets in the link-stripped text. When the range
  found ends where the first link begins or before, or starts no later than the first link and takes all the rest, it
  normalises back to the phrase exactly when the match begins and ends between whole characters (`SpanNormalisesBack`).
  Behind a link it misses: under any folding, every source with a link, followed by two characters that fold to
  different single ones of which the second is new to it, is a failing input for that second character
  (`LinksShiftTheSpan`), for instance `c` in `[](b)ac`, where the range holds `](b)ac` (`LinkedMiss`).
- "A failed refetch keeps the last good model" (`console-ui/src/model.tsx:52-53`) has one exception, the first load
  failing after a later one succeeded: `FailureKeepsLastGoodModel` is the exact condition, `LateInitialFailureBlanksPage`
  a run. Answers are also shown in the order of arrival, so an older one can replace a newer one (`StaleResponseWins`):
  the page shows the answer of the latest-started load all along exactly when answers arrive in the order their loads
  were started and the first load does not fail after one (`AlwaysFreshestIff`, and `FreshestIsShownIff` for one moment).
- Edges of the answer trail are told apart by a string joined with bars. A feed keeps every edge exactly when no two
  of its linking hits clash (`FeedKeepsEdgesIff`). A clash needs a node's key and a source's key that both hold `|source:`
  (`ClashNeedsNesting`), so ids with other bars are safe; `BarsCollide` is a family of feeds that lose an edge, such as a
  card `card:a` of source `b|source:c` with a card `card:a|source:b` of source `c`.
- The last finished item is said to prefer `done` over `failed` (`console-ui/src/lib/workQueueEta.ts:130`); the code
  prefers the latest, and among equals the first (`FailureCanHideSuccess`). For every list it is done exactly when the
  first item with the latest finish is (`LastIsDoneIff`), and among the latest a done item is preferred exactly when no
  other stands before it (`DoneIsPreferredIff`).
- The condition `avg >= MIN_SAMPLE_SEC` in the reliability of the estimate can never fail once there are two samples:
  `TwoSamplesAreReliable`.
- Past the left or the upper edge of the mesh the interpolated height extrapolates and can be negative; past the other
  two edges it does not. All fields on the scale give a height in range at a point exactly when the point lies before
  neither of those two edges (`HeightInRangeIff`), and more density never lowers the land exactly there
  (`HeightMonotoneIff`). The densities of real corpora are no better off: at every other point, and on any scale, a
  corpus of one point has a negative height (`CorpusBelowGround`), so the land of every corpus is on or above the ground
  exactly at the same points (`LandAboveGroundIff`). Points inside the layout bounds land on the mesh, but crystals are
  fanned out on a spiral around their home (`console-ui/src/components/KnowledgeTerrain.tsx:91-121`) and can be sampled
  past any edge.
- A malformed date counts as day 0, so days need not follow the sorted dates. Where the first and the last sorted date
  span no day every weight is 0.15 (`RecencyFlatIff`), for instance when a malformed text such as `unknown` sorts behind
  all dates (`MalformedLastFlattens`). Otherwise the weight of a dated point is between 0.15 and 1 exactly when its day
  lies between the first and the last (`RecencyFollowsDays`), and a malformed one sinks below the baseline, or out of
  the land (`MalformedDateSinks`).
- The weighted average gives a sample stamped ahead of the clock the full weight of age 0, so it can move with the clock.
  Between two stamps it stays exactly when all samples lie on one side of the clock or both sides average the same
  (`AverageStaysIff`), and falls or stays exactly when they lie on one side or those ahead average no more than the past
  ones (`AverageFallsIff`).
- Stripping the answer and cutting off its code fences before the first object is looked for has no effect on the result:
  `CleaningChangesNothing`.
- `excerpt` raises an index error when the padded start reaches the end of the bytes, for instance for an empty range at
  the end with no padding; `ExcerptOf` and `IndexErrorIff` state exactly when.

## Model

| member | source | states |
|---|---|---|
| CommunityOrder.SortedHeadIsLargest | console-ui/src/lib/derive.ts:1518 | The head of the sorted entries is the largest community, the lowest id among equals |
| CommunityOrder.FirstBeatsRest | console-ui/src/lib/derive.ts:1512-1521 | Size-then-id and the greedy rule with nothing placed choose the same first community |
| CommunityOrder.ScoreLoop | console-ui/src/lib/derive.ts:1526-1529 | The score is the total affinity to the placed communities, with 0 for missing rows and cells |
| CommunityOrder.PickNext | console-ui/src/lib/derive.ts:1523-1539 | The pick beats every other unplaced community by (affinity to the placed, size, smaller id) |
| CommunityOrder.PlacementOrder | console-ui/src/lib/derive.ts:1508-1543 | The order lists the nonempty communities once each, and every pick beats all that were still unplaced at that moment |
| CommunityOrder.GreedyStartsWithLargest | console-ui/src/lib/derive.ts:1512-1518 | The first pick is the largest community, with the lowest id among equals |
| CommunityOrder.GreedyOrderUnique | console-ui/src/lib/derive.ts:1512-1543 | Two greedy orders of the same communities agree pick by pick |
| CommunityOrder.PlacementIgnoresEnumeration | console-ui/src/lib/derive.ts:1492-1543 | The placement order is the same for every enumeration order of the size map |
| CommunityOrder.PicksAreMostConnected | console-ui/src/lib/derive.ts:1523-1539 | Of any two picks the earlier has at least the other's total of weight-table cells to everything placed before it, 0 for missing ones; ties go to the larger and then to the smaller id |
| CommunityOrder.HeaviestNeighbourIsSecond | console-ui/src/lib/derive.ts:1518-1538 | The community with the heaviest weight to the largest one is placed second, next to it |
| PackedCloud.ReverseTriangle | console-ui/src/lib/derive.ts:1562 | The reverse triangle inequality for `hypot`, from the circle and square laws alone |
| PackedCloud.FarSeatIsClear | console-ui/src/lib/derive.ts:1557-1562 | A spiral seat at distance at least extent + own radius is clear of every placed disc |
| PackedCloud.FindSeat | console-ui/src/lib/derive.ts:1556-1567 | The unbounded search ends, at the first step of the spiral that is clear of every placed disc |
| PackedCloud.Pack | console-ui/src/lib/derive.ts:1545-1568 | The first disc is at the origin and every later one at the first clear step, in placement order, with the radius of its size |
| PackedCloud.DiscsDisjoint | console-ui/src/lib/derive.ts:1545-1568 | Any two placed discs are at least the sum of their radii apart |
| PackedCloud.PackingInCoordinates | console-ui/src/lib/derive.ts:1494-1568 | Disc `i` stands at `(6 t cos t, 6 t sin t)` with `t` its number of steps of 0.22, the first at the origin; without a rim of 10 its area is proportional to its members |
| PackedCloud.EarlierStepIsBlocked | console-ui/src/lib/derive.ts:1556-1567 | Every earlier step of the spiral is too close to a disc placed before |
| PackedCloud.PackingUnique | console-ui/src/lib/derive.ts:1545-1568 | The placement order alone fixes the packing |
| PackedCloud.LaterSitsFarther | console-ui/src/lib/derive.ts:1512-1567 | Of two communities the one placed later and not smaller sits strictly farther from the centre |
| PackedCloud.ExtentBound | console-ui/src/lib/derive.ts:1545-1570 | The extent is at most the first radius plus, for each later disc, its diameter and one spiral step of 1.32 |
| PackedCloud.RingTableSeats | console-ui/src/lib/derive.ts:1576-1579 | The seat table holds exactly the listed ids, each at the ring's distance, and distinct ids at their own evenly spaced seats |
| PackedCloud.OuterRing | console-ui/src/lib/derive.ts:1572-1579 | The ring is the seat table of the sorted ids |
| PackedCloud.RingIsEvenlySpaced | console-ui/src/lib/derive.ts:1572-1579 | Of `n` distinct sorted ids the i-th stands at the angle `(2 i + 1) pi / n` of the ring, so neighbours are `2 pi / n` apart |
| PackedCloud.RingSeatsDiffer | console-ui/src/lib/derive.ts:1572-1579 | Distinct ids stand at distinct points |
| PackedCloud.ComputeRadialAnchors | console-ui/src/lib/derive.ts:1500-1581 | The result is the packing of a greedy order, the enclosing radius of at least 60, and the ring 26 outside it |
| PackedCloud.CloudIsDisjoint | console-ui/src/lib/derive.ts:1484-1493 | Discs of different communities never overlap, and each lies inside the reported radius |
| PackedCloud.RingIsOutside | console-ui/src/lib/derive.ts:1572-1579 | Every unclustered node is on the ring and at least 26 clear of the edge of every disc |
| PackedCloud.CloudIsCompact | console-ui/src/lib/derive.ts:1545-1571 | The reported radius lies between 60 and the larger of 60 and the budget of the discs |
| PackedCloud.LayoutIsDeterministic | console-ui/src/lib/derive.ts:1492-1581 | The whole layout depends on the contents of the size map and the id list, not on their order |
| PackedCloud.LayoutPlacesCommunity | console-ui/src/lib/derive.ts:1545-1571 | Every community of a layout is centred at a step of the spiral, the largest at the origin |
| PackedCloud.LayoutSeatsIds | console-ui/src/lib/derive.ts:1572-1579 | The unclustered ids of a layout, in order, stand at the angles `(2 i + 1) pi / n` of the ring 26 outside its radius |
| PackedCloud.LayoutSeatsDiffer | console-ui/src/lib/derive.ts:1572-1579 | No two unclustered ids of a layout share a point |
| PackedCloud.LayoutIsTight | console-ui/src/lib/derive.ts:1500-1571 | The layout has a centre for exactly the nonempty communities, and its radius is 60 or reached by a disc |
| TerrainField.BlurIsDirectConvolution | console-ui/src/components/KnowledgeTerrain.tsx:342-368 | The two passes equal the direct zero-padded convolution with the outer-product kernel divided by `ksum` squared |
| TerrainField.BlurLinear | console-ui/src/components/KnowledgeTerrain.tsx:346-368 | The blur of a linear combination is the linear combination of the blurs |
| TerrainField.BlurNonnegative | console-ui/src/components/KnowledgeTerrain.tsx:346-368 | A nonnegative grid stays nonnegative |
| TerrainField.BlurMonotone | console-ui/src/components/KnowledgeTerrain.tsx:346-368 | More mass in every cell never lowers the blurred surface |
| TerrainField.LineMass | console-ui/src/components/KnowledgeTerrain.tsx:342-356 | One pass over one line never creates mass, and loses none that is a kernel radius from the ends |
| TerrainField.BlurMass | console-ui/src/components/KnowledgeTerrain.tsx:342-368 | The blur never creates mass, and keeps all of it while it is a kernel radius from the border |
| Terrain.MakeKernel | console-ui/src/components/KnowledgeTerrain.tsx:337-341 | The kernel holds the Gaussian taps from -R to R and `ksum` is their sum |
| Terrain.GaussianIsValid | console-ui/src/components/KnowledgeTerrain.tsx:337-341 | With a positive `exp` the kernel has nonnegative taps and a positive sum |
| Terrain.BlurRows | console-ui/src/components/KnowledgeTerrain.tsx:347-356 | The first loop nest computes the row pass over the flat array |
| Terrain.BlurColumns | console-ui/src/components/KnowledgeTerrain.tsx:357-366 | The second loop nest computes the column pass over the flat array |
| Terrain.BlurGrid | console-ui/src/components/KnowledgeTerrain.tsx:346-368 | The flat-array blur refines the mathematical blur in every cell |
| Terrain.DepositLoop | console-ui/src/components/KnowledgeTerrain.tsx:373-380 | Every cell holds the total positive weight of the points that round to it |
| Terrain.DensityFor | console-ui/src/components/KnowledgeTerrain.tsx:372-382 | The density array is the blurred field of deposits |
| TerrainMesh.ScaleIsUniform | console-ui/src/components/KnowledgeTerrain.tsx:330-335 | Equal distances in the layout are equal distances on the mesh, along either axis |
| TerrainMesh.LongerSideFills | console-ui/src/components/KnowledgeTerrain.tsx:330-335 | The longer side of the layout spans the mesh from -110 to 110, and its middle is the middle of the mesh |
| TerrainMesh.PointsGoToTheNearestCell | console-ui/src/components/KnowledgeTerrain.tsx:373-379 | For every layout the cell of a point is the one nearest to its place on the mesh, the later one where two are equally near |
| TerrainMesh.FilterLeaves | console-ui/src/components/KnowledgeTerrain.tsx:627-635 | A cell holds the total positive weight of the corpus's points that are dated no later than the cutoff or undated, have the filter's theme and tag, and are nearest to it |
| TerrainMesh.MetricWeights | console-ui/src/components/KnowledgeTerrain.tsx:397-416 | A point weighs 1, or its citations, or linearly in its day from 0.15 to 1 |
| TerrainMesh.GaussianTaps | console-ui/src/components/KnowledgeTerrain.tsx:337-341 | The kernel reaches 11 cells, is symmetric, holds the Gaussian of 3.4 cells, and falls away from its middle |
| Terrain.DensityGrows | console-ui/src/components/KnowledgeTerrain.tsx:372-382 | A filter that keeps fewer points never gives more density anywhere, whatever the weights |
| Terrain.SampleHeight | console-ui/src/components/KnowledgeTerrain.tsx:430-445 | The sampled height is the normalised bilinear interpolation of the density |
| TerrainMesh.HeightBetweenCells | console-ui/src/components/KnowledgeTerrain.tsx:430-445 | Between four cells the land is the mean of their densities weighted by the position, on a scale of 42; over a cell it is that cell's |
| Terrain.HeightMonotone | console-ui/src/components/KnowledgeTerrain.tsx:430-445 | More density in every cell never lowers the land, at any point not past the left or the upper edge of the mesh |
| Terrain.HeightInRange | console-ui/src/components/KnowledgeTerrain.tsx:430-445 | At the same points density between 0 and the normaliser gives heights between 0 and HEIGHT |
| Terrain.HeightOutOfBounds | console-ui/src/components/KnowledgeTerrain.tsx:430-445 | At every point past one of those edges a field on the scale, empty along that edge, gives a negative height |
| Terrain.HeightInRangeIff | console-ui/src/components/KnowledgeTerrain.tsx:430-445 | All fields on the scale give a height in range at a point exactly when the point is past neither edge |
| Terrain.HeightMonotoneIff | console-ui/src/components/KnowledgeTerrain.tsx:430-445 | More density never lowers the land at a point exactly when the point is past neither edge |
| TerrainEdge.BlurOfLone | console-ui/src/components/KnowledgeTerrain.tsx:346-368 | A unit in one cell blurs to the product of two kernel shares, one for each axis |
| TerrainEdge.LandOfLone | console-ui/src/components/KnowledgeTerrain.tsx:372-445 | The land of one point is the product of two interpolated profiles over the scale |
| TerrainEdge.CorpusBelowGround | console-ui/src/components/KnowledgeTerrain.tsx:372-445 | At every point past the left or the upper edge, on any scale, some corpus of one point has a negative height |
| TerrainEdge.LandAboveGroundIff | console-ui/src/components/KnowledgeTerrain.tsx:372-445 | The land of every corpus in every layout and metric is on or above the ground at a point exactly when the point is past neither edge |
| Terrain.PointsLandInBounds | console-ui/src/components/KnowledgeTerrain.tsx:330-335 | Every point inside the layout bounds is placed on the mesh |
| Terrain.RecencyFollowsDays | console-ui/src/components/KnowledgeTerrain.tsx:390-400 | For any dates, malformed ones included: where the first and last sorted dates span no day all dated points weigh the same 0.15; otherwise a weight is between 0.15 and 1 exactly when its day is in the span, 1 exactly on the last day, and ordered as the days are |
| Terrain.RecencyFlatIff | console-ui/src/components/KnowledgeTerrain.tsx:387-400 | All points of a dated corpus weigh 0.15 exactly when the first and last sorted dates span no day |
| Terrain.MalformedLastFlattens | console-ui/src/components/KnowledgeTerrain.tsx:391-400 | A malformed date that sorts behind all others makes the last day 0, and every weight 0.15 unless the first day is before 1970 |
| Terrain.MalformedDateSinks | console-ui/src/components/KnowledgeTerrain.tsx:390-400 | A malformed date weighs less than an undated point exactly when the sorted dates span a day and begin after day 0, and nothing exactly when moreover the span is at most 17/3 of its start |
| Terrain.RecencyRange | console-ui/src/components/KnowledgeTerrain.tsx:385-400 | When days follow dates every recency weight lies between 0.15 and 1 |
| Terrain.RecencyOfNewest | console-ui/src/components/KnowledgeTerrain.tsx:385-400 | When days follow dates the newest point weighs 1 as soon as the corpus spans a day |
| Terrain.RecencyMonotone | console-ui/src/components/KnowledgeTerrain.tsx:397-400 | When days follow dates a later date never weighs less |
| Terrain.MaxLoop | console-ui/src/components/KnowledgeTerrain.tsx:424-425 | The normaliser is the least value that is at least 1e-6 and at least every density |
| Terrain.TerrainScene.constructor | console-ui/src/components/KnowledgeTerrain.tsx:419 | A new scene has an empty normaliser cache |
| Terrain.TerrainScene.FullMaxFor | console-ui/src/components/KnowledgeTerrain.tsx:420-429 | Cached or computed, the result is the maximum of the full corpus's density for the metric, and no cached value changes |
| Terrain.TerrainScene.ApplyFilter | console-ui/src/components/KnowledgeTerrain.tsx:627-638 | Every mesh vertex gets the height of the filtered density on the metric's fixed scale |
| Terrain.TerrainGrows | console-ui/src/components/KnowledgeTerrain.tsx:416-418 | At every point past neither edge a later cutoff never lowers the land, and every filtered terrain is between 0 and HEIGHT |
| Terrain.FullMaxUnique | console-ui/src/components/KnowledgeTerrain.tsx:424-425 | The normaliser of a field is one number |
| Terrain.LandGrows | console-ui/src/components/KnowledgeTerrain.tsx:416-418 | Of two lands one scene has shown for a metric, the one with the later cutoff is at no vertex lower, and both lie between 0 and HEIGHT |
| ToolScan.BestMatching | scripts/skill_s1_scan.py:8-14 | A one-to-one matching of failures to later successes of the same tool reaches the count and leaves exactly the open failures unmatched |
| ToolScan.MatchingBound | scripts/skill_s1_scan.py:8-14 | No such matching has more pairs than the count |
| ToolScan.ErrorFixIsMaximumMatching | scripts/skill_s1_scan.py:132-141 | `d1_error_fix` is the size of a maximum matching of failures to later successes |
| ToolScan.OpenIsMaximalSuffix | scripts/skill_s1_scan.py:133-139 | The open count of a tool is the greatest balance of failures over successes among all suffixes |
| ToolScan.ClaudeScanner.constructor | scripts/skill_s1_scan.py:85-88 | A new scanner holds the counts of the empty stream |
| ToolScan.ClaudeScanner.Take | scripts/skill_s1_scan.py:104-143 | One item moves the counts of a stream to the counts of the stream with that item |
| ToolScan.ClaudeScanner.TakeResult | scripts/skill_s1_scan.py:125-143 | A denied, hooked, failed or successful result keeps every counter equal to its declarative meaning, and tool errors equal to denials + hooks + fixes + open failures |
| ToolScan.ClaudeScanner.TakeFailure | scripts/skill_s1_scan.py:132-136 | A countable failure opens one window, and starts a run exactly when the tool's last countable result was no failure |
| ToolScan.ClaudeScanner.TakeSuccess | scripts/skill_s1_scan.py:137-143 | A success closes one open failure if there is one and ends the tool's run either way |
| ToolScan.ClaudeScanner.Scan | scripts/skill_s1_scan.py:83-145 | After any stream clusters are the maximal failure runs, the run set the tools whose last countable result failed, and fixes the maximum matching |
| ToolScan.CodexScanner.constructor | scripts/skill_s1_scan.py:149-151 | A new scanner holds the counts of no output |
| ToolScan.CodexScanner.Take | scripts/skill_s1_scan.py:190-203 | One output moves the counts to the counts with that output; one without an exit code changes nothing |
| ToolScan.CodexScanner.TakeExit | scripts/skill_s1_scan.py:194-203 | A failing or succeeding exit keeps errors, fixes, open failures and clusters equal to their meanings |
| ToolScan.CodexScanner.Scan | scripts/skill_s1_scan.py:148-205 | After any outputs clusters are the failures that found nothing open |
| ToolScan.OpenFollowsFailure | scripts/skill_s1_scan.py:132-143 | A tool whose last countable result failed has an open failure |
| ToolScan.CodexClusters | scripts/skill_s1_scan.py:11-14 | Codex clusters plus the runs begun over an open failure are all runs, so they agree exactly when there is no such run |
| ToolScan.CodexUndercounts | scripts/skill_s1_scan.py:194-203 | Fail, fail, succeed, fail are two runs of which Codex counts one |
| ToolScan.ScannersAgree | scripts/skill_s1_scan.py:190-203 | On the same single-tool stream both scanners report the same fixes and errors, Codex no more clusters, and as many exactly when no run begins over an open failure |
| ToolItems.ResolvedByPosition | scripts/skill_s1_scan.py:106-137 | The r-th outcome is that of the r-th result: its name is the one announced last under its id before it, `?` exactly when there is none, and its kind follows from its error flag and the markers in its text |
| ToolItems.ErrorFixPairsItems | scripts/skill_s1_scan.py:106-142 | `d1_error_fix` is the size of a largest one-to-one pairing of failed results with later successes whose ids were announced under the same name |
| ToolItems.CountersCountItems | scripts/skill_s1_scan.py:125-131 | The denial, hook and error counters are the numbers of results of their kind |
| ToolItems.RunStartIff | scripts/skill_s1_scan.py:132-142 | A failure begins a run exactly when every earlier failure of its tool has a success of the tool after it |
| ToolItems.ExitsByPosition | scripts/skill_s1_scan.py:190-203 | The Codex scanner reads the outputs with an exit code in order, and only the code 0 as a success |
| ExtractObj.Extract | scripts/m15_card_synthesis.py:30-52 | The result is the shortest text from the first brace of the cleaned answer whose depth outside strings returns to 0; `None` exactly when there is none |
| ExtractObj.FirstBalancedUnique | scripts/m15_card_synthesis.py:38-52 | There is at most one such text, and it rules `None` out |
| ExtractObj.RenderIsNeutral | scripts/m15_card_synthesis.py:38-50 | Every printed JSON value brings the automaton back to its level and never goes below it |
| ExtractObj.BracesAround | scripts/m15_card_synthesis.py:38-50 | A neutral text in braces stays strictly above the level until its last brace |
| ExtractObj.ObjectIsFirstBalanced | scripts/m15_card_synthesis.py:38-51 | A printed object is the first balanced text of itself followed by anything |
| ExtractObj.CleanAround | scripts/m15_card_synthesis.py:31-34 | Stripping and fence cutting touch only what surrounds a text in braces, and bring no brace in front of it |
| ExtractObj.CleaningChangesNothing | scripts/m15_card_synthesis.py:30-52 | Stripping and fence cutting never change the answer: it is what is found in the reply itself |
| ExtractObj.ExtractInvertsPrint | scripts/m15_card_synthesis.py:30-52 | For every JSON object (sections 4, 5 and 7 of RFC 8259), after any prefix without an opening brace, fenced or not, and before any suffix, the result is exactly the object's text |
| ModelPoller.ModelProvider.constructor | console-ui/src/model.tsx:39-91 | Mounting starts load 0 as the initial load and listens unless the site is static |
| ModelPoller.ModelProvider.Load | console-ui/src/model.tsx:65-66 | Starting a load adds one request in flight and changes nothing else |
| ModelPoller.ModelProvider.Schedule | console-ui/src/model.tsx:54-63 | Unless cancelled or static, the old timer is cleared and one with the model's interval is armed |
| ModelPoller.ModelProvider.OnSuccess | console-ui/src/model.tsx:67-71 | The success handler is the protocol's success step |
| ModelPoller.ModelProvider.OnFailure | console-ui/src/model.tsx:72-79 | The failure handler is the protocol's failure step |
| ModelPoller.ModelProvider.OnTimer | console-ui/src/model.tsx:62 | A firing timer is the protocol's timer step |
| ModelPoller.ModelProvider.OnFocus | console-ui/src/model.tsx:84-91 | Focus and refresh are the same step: one more load |
| ModelPoller.ModelProvider.Cleanup | console-ui/src/model.tsx:93-98 | The cleanup is the protocol's unmount step |
| ModelPoller.SafeStep | console-ui/src/model.tsx:45-99 | Every enabled event keeps the invariant: one timer at most, polling alive while mounted, nothing armed after unmount, one load only on a static site |
| ModelPoller.EveryRunIsSafe | console-ui/src/model.tsx:45-99 | The invariant holds after every run of events in any interleaving |
| ModelPoller.CancelledByUnmount | console-ui/src/model.tsx:93-94 | The effect is cancelled exactly when the run holds an unmount |
| ModelPoller.PageShowsLastWrite | console-ui/src/model.tsx:67-76 | The page shows the last success, or failure of the first load, before unmount |
| ModelPoller.PageLoadsUntilWrite | console-ui/src/model.tsx:39-43 | Until there is one, the page shows the loading gate |
| ModelPoller.FailureKeepsLastGoodModel | console-ui/src/model.tsx:52-76 | A failure leaves the page alone exactly when it is not the first load's or the page is unmounted |
| ModelPoller.LateInitialFailureBlanksPage | console-ui/src/model.tsx:74-76 | The exception happens: a focus load succeeds, then the first load fails and blanks the page |
| ModelPoller.StaleResponseWins | console-ui/src/model.tsx:66-71 | An older answer that arrives later replaces a newer one |
| ModelPoller.PageShowsLoad | console-ui/src/model.tsx:67-76 | The model on the page is the one carried by the success of the load last written, or none |
| ModelPoller.FreshestIsGreatest | console-ui/src/model.tsx:65-71 | The freshest load is the latest-started of those that put a model on the page |
| ModelPoller.FreshestIsShownIff | console-ui/src/model.tsx:65-76 | The page shows the freshest answer exactly when the last write is an answer no earlier one outdates, or a failure with no answer before it |
| ModelPoller.AlwaysFreshestIff | console-ui/src/model.tsx:65-76 | The page shows the freshest answer after every event exactly when answers arrive in the order of their loads and the first load does not fail after one |
| ModelPoller.LaterEvents | console-ui/src/model.tsx:45-99 | After unmount nothing is written or armed, and once the loading gate is gone it never comes back |
| ModelPoller.TimerFollowsLatestResponse | console-ui/src/model.tsx:25-36 | The armed timer always waits the interval of the latest answer, 12 s while a run is going and 60 s otherwise |
| ModelPoller.TimerDelay | console-ui/src/model.tsx:29-36 | The armed timer waits 12000 ms exactly when the latest response is a model whose last run is `running`, and 60000 ms otherwise, so after every failure |
| ModelPoller.TimerArmedIff | console-ui/src/model.tsx:54-98 | A timer is armed exactly while mounted on a live site, after a response since which no timer has gone off |
| ModelPoller.LoadsStarted | console-ui/src/model.tsx:62-91 | Every focus, refresh and tick starts one load, and a load is in flight exactly until it is answered |
| Utf8.BoundaryAt | scripts/m14a5_pack.py:34-37 | A position that is no continuation byte is the start of a character or the end |
| Utf8.DecodeInvertsEncode | scripts/m14a5_pack.py:38 | Decoding the UTF-8 form (section 3 of RFC 3629) of a text gives the text back |
| Utf8.EncodeInvertsDecode | scripts/m14a5_pack.py:38 | Bytes that decode are the UTF-8 form of what they decode to |
| Utf8.EncodeCarriesNumber | scripts/m14a5_coverage.py:47 | The bytes of a character carry its number, 6 bits in each after the first, in as few bytes as can |
| Excerpt.ExcerptOf | scripts/m14a5_pack.py:29-38 | Both ends stop at the nearest byte outward that is no continuation byte, the text between is decoded with newlines as spaces, and the index error is raised exactly when the padded start is positive and not inside the bytes |
| Excerpt.IndexErrorIff | scripts/m14a5_pack.py:32-35 | For a location inside the bytes the index error arises exactly when the bytes are nonempty, the location starts at their end and nothing is padded |
| Excerpt.ExcerptIsARun | scripts/m14a5_pack.py:32-38 | On valid UTF-8, when there is no index error, the excerpt contains the whole location, widens each padded side by at most 3 bytes, and is a contiguous run of the source's own characters |
| SourceSpans.NormSeq | scripts/m14a5_coverage.py:38-52 | Characters and offsets are the normalised link-stripped text and, for each character, the byte offset of the one it came from |
| SourceSpans.NormFoldsCharacters | scripts/m14a5_coverage.py:38-52 | White space and the ten noise characters vanish wherever they stand, and every other character is folded in place |
| SourceSpans.OriginsNondecreasing | scripts/m14a5_coverage.py:38-52 | Offsets never decrease and stay inside the text |
| SourceSpans.FindSpanOf | scripts/m14a5_coverage.py:60-73 | The span runs from the origin of the first match to the origin of the character after it, or to the end of the source |
| MarkdownLinks.StripTail | scripts/m14a5_coverage.py:34-35 | Stripping leaves the text before the first link alone, and from any place before it works as on the whole |
| MarkdownLinks.StripSlice | scripts/m14a5_coverage.py:34-35 | No link begins and ends inside text without one |
| MarkdownLinks.StripAppend | scripts/m14a5_coverage.py:34-35 | Text without brackets passes through behind anything |
| MarkdownLinks.LinkAtIff | scripts/m14a5_coverage.py:34-35 | A link is matched at the front exactly when the text begins with `[text](target)` or the same behind `!`, with no `]` in the text and no `)` in the target |
| MarkdownLinks.StripReplacesLink | scripts/m14a5_coverage.py:34-35 | The leftmost link is replaced by its text, and stripping goes on behind it |
| MarkdownLinks.StripLeavesRest | scripts/m14a5_coverage.py:34-35 | Text without a link is left as it is |
| SourceSpans.SpanNormalisesBack | scripts/m14a5_coverage.py:60-73 | When the range found ends where the first link begins or before, or starts no later than the first link and takes all the rest, it is a character range in order, and it normalises back to the phrase exactly when the match starts and ends between whole characters |
| SourceSpans.LinksShiftTheSpan | scripts/m14a5_coverage.py:60-73 | Under any folding, for every source with a link, followed by two characters that fold to different single ones, the second new to it, the range found for the second does not normalise back to it |
| SourceSpans.LinkedMiss | scripts/m14a5_coverage.py:60-73 | `c` in `[](b)ac` is found at bytes 1 to 7, which normalise to `bac` |
| Strings.FindTextIsFirst | scripts/m14a5_coverage.py:67 | Text search returns the first occurrence, or -1 when there is none |
| ParagraphBlocks.Paragraphs | scripts/m14a5_coverage.py:80-101 | The blocks are, in order, the byte ranges of exactly the maximal runs of non-blank lines |
| ParagraphBlocks.BlocksAreSeparated | scripts/m14a5_coverage.py:80-101 | Blocks are nonempty, sorted and disjoint |
| ParagraphBlocks.BlockHoldsParagraph | scripts/m14a5_coverage.py:89-98 | The bytes of a block are the bytes of its lines joined by newlines |
| CoverageCase.BlockInsideWindow | scripts/m14a5_coverage.py:104-130 | The anchor's block lies inside its window and reaches back to the anchor's start |
| CoverageCase.StrictOverlapIsOverlap | scripts/m14a5_coverage.py:76-130 | Whatever overlaps the block overlaps the window |
| CoverageCase.CoverOne | scripts/m14a5_coverage.py:161-167 | The inner loop lists the strictly and the adjacently covering units and tallies the latter |
| CoverageCase.CoverGold | scripts/m14a5_coverage.py:151-173 | One gold span gives its row, and the tallies grow by the units that cover it |
| CoverageCase.RunCase | scripts/m14a5_coverage.py:141-173 | The rows are those of the gold spans over separated blocks, the invalid anchors those not found, and each unit's tally the number of rows it covers |
| CoverageCase.OverlapsIff | scripts/m14a5_coverage.py:76-77 | Two nonempty ranges overlap exactly when they share a byte |
| CoverageCase.TargetsAre | scripts/m14a5_coverage.py:104-133 | The strict target is the paragraph that holds the start of the anchor, the window also takes in the paragraphs before and after it, and without such a paragraph both are the anchor |
| CoverageCase.QuoteContainsIff | scripts/m14a5_coverage.py:156-158 | One of the normalised texts is not empty and lies inside the other |
| CoverageCase.RowOfAnchor | scripts/m14a5_coverage.py:149-175 | The covering units of an anchor in a paragraph are, in order, those whose range meets the window or whose quote contains the phrase or is contained in it |
| CoverageCase.StrictRowOfAnchor | scripts/m14a5_coverage.py:161-173 | A row is strictly covered exactly when some unit meets the anchor's own paragraph |
| CoverageCase.RowWithoutAnchor | scripts/m14a5_coverage.py:149-173 | A phrase that is not found can be covered by text only |
| CoverageCase.InvalidAnchorsAre | scripts/m14a5_coverage.py:150-152 | The invalid anchors are, in order, the names of exactly the rows whose phrase was not found |
| CoverageCase.TallyCountsRows | scripts/m14a5_coverage.py:148-166 | A unit listed at most once in each row is tallied once for each row it covers |
| CoverageCase.StrictRowIsCovered | scripts/m14a5_coverage.py:161-172 | A strictly covered row is covered |
| CoverageCase.StrictRecallIsLower | scripts/m14a5_coverage.py:183-189 | Strict recall is at most recall, and both lie between 0 and 1 |
| LabelPlacement.PushKeeps | console-ui/src/components/KnowledgeGraph.tsx:650-659 | A label that passed the checks keeps the frame's invariant and spends budget only if it was not forced |
| LabelPlacement.RestIsCutOff | console-ui/src/components/KnowledgeGraph.tsx:634 | When the budget ends at a node that is not forced, no later node is forced and none outranks a placed one |
| LabelPlacement.DrawRanked | console-ui/src/components/KnowledgeGraph.tsx:629-660 | Only forced boxes overlap each other, free labels stay within the budget, every forced node is labelled, and every other eligible node is labelled, collides with a label ranked no lower, or was cut by the spent budget |
| LabelPlacement.DrawLabels | console-ui/src/components/KnowledgeGraph.tsx:595-668 | The same for all nodes of the frame, in whatever order they come, with no node labelled more often than it occurs |
| LabelPlacement.HoverLabelsNeighbours | console-ui/src/components/KnowledgeGraph.tsx:599-634 | While the pointer is on a node exactly the focus, the selection, the node and its neighbours are labelled |
| LabelPlacement.LabelsAreApart | console-ui/src/components/KnowledgeGraph.tsx:638-659 | Two labels of which one is not forced are 4 pixels apart sideways or 16 pixels from line to line, by the places, radii and text widths of their nodes |
| LabelPlacement.FreeLabelsAreVisible | console-ui/src/components/KnowledgeGraph.tsx:611-637 | A label that is not forced stands at most 20 pixels off the canvas and past the zoom threshold of its importance, and there are at most 22, or 40 on the full screen |
| LabelPlacement.UnlabelledBecause | console-ui/src/components/KnowledgeGraph.tsx:629-660 | A visible node goes unlabelled only if the label of a forced or no less important node is in its way, or all 22 or 40 went to such nodes |
| LabelPlacement.LabelsInOrder | console-ui/src/components/KnowledgeGraph.tsx:604-609 | Forced labels come first, then the more important before the less important |
| Frontmatter.SplitFrontmatter | console-ui/src/lib/markdown.tsx:209-224 | The fields are the lines between a first-line fence and the next fence; without both, the note is returned whole |
| Frontmatter.BodyKeepsLineNumbers | console-ui/src/lib/markdown.tsx:206-219 | The body has as many lines as the note, blank up to the closing fence and unchanged after it |
| Frontmatter.ReadValues | console-ui/src/lib/markdown.tsx:259-276 | The inner loop collects exactly the value lines in front and stops at the first other line |
| Frontmatter.ParseFrontmatterFields | console-ui/src/lib/markdown.tsx:235-284 | The nested loops end, read every line once, and return what the recursive reading of the lines returns |
| Frontmatter.FieldsReadBack | console-ui/src/lib/markdown.tsx:233-284 | Every legal field list printed as scalars and lists is read back as it was |
| Frontmatter.ParseInvertsPrint | console-ui/src/lib/markdown.tsx:233-284 | The same through the text: split, parse and get the list back |
| Frontmatter.OutputsAreLegal | console-ui/src/lib/markdown.tsx:235-284 | Whatever is parsed has nonempty keys of key characters, at least one value, and no newline in a value |
| Frontmatter.ParserImage | console-ui/src/lib/markdown.tsx:235-284 | A field list is the parse of some text exactly when it is legal |
| Frontmatter.NoteReadsBack | console-ui/src/lib/markdown.tsx:206-284 | A note written as fenced fields and a body splits and parses back to the fields, with its body at the same lines |
| FrontmatterStyles.EveryStyleReadsBack | console-ui/src/lib/markdown.tsx:233-284 | Fields are read back however they are written: any white space after the colon and around a dash, bare or in either quotes, as a list or indented lines, opened by nothing, a bar or `>`, with blank lines and comments between |
| FrontmatterStyles.MatchFieldIff | console-ui/src/lib/markdown.tsx:250-257 | A line is a field exactly when it is a key of key characters, a colon, white space and the rest |
| FrontmatterStyles.MatchItemIff | console-ui/src/lib/markdown.tsx:262-268 | A line is an item exactly when it is white space, a dash, white space and the item |
| FrontmatterStyles.IsContinuationOf | console-ui/src/lib/markdown.tsx:269-274 | A line continues a block exactly when it is indented, not blank, and begins with no key |
| FrontmatterStyles.StripQOf | console-ui/src/lib/markdown.tsx:239-248 | White space around a value is cut off, and then one pair of equal quotes, double or single |
| FrontmatterStyles.SplitAtFences | console-ui/src/lib/markdown.tsx:209-224 | The frontmatter is what stands between a first line of three dashes and the next such line, with any white space around the dashes; without both there is none |
| Strings.SplitInvertsJoin | console-ui/src/lib/markdown.tsx:213-219 | Lines without newlines survive joining and splitting |
| Strings.JoinInvertsSplit | console-ui/src/lib/markdown.tsx:213-219 | Splitting and joining gives the text back |
| ProcessGraph.GraphBuilder.constructor | console-ui/src/components/AskProcessGraph.tsx:178-180 | A new builder holds the graph of nothing |
| ProcessGraph.GraphBuilder.Store | console-ui/src/components/AskProcessGraph.tsx:113-136 | A known key is updated in place and a new one appended, as the specification says |
| ProcessGraph.GraphBuilder.UpsertNode | console-ui/src/components/AskProcessGraph.tsx:102-137 | A new key is appended and a known one updated in place; citations accumulate and the first human label of a node stays |
| ProcessGraph.GraphBuilder.AddEdge | console-ui/src/components/AskProcessGraph.tsx:139-151 | An edge is appended unless it is a self-loop or its key was seen |
| ProcessGraph.GraphBuilder.EnsureSource | console-ui/src/components/AskProcessGraph.tsx:191-201 | The source node is present afterwards, stubbed only if it was missing, and the stub counts as no label |
| ProcessGraph.GraphBuilder.IngestHit | console-ui/src/components/AskProcessGraph.tsx:182-210 | A hit adds its node, its source's node and the edge between them |
| ProcessGraph.IngestHits | console-ui/src/components/AskProcessGraph.tsx:212-219 | Folding hits one by one gives the graph of their concatenation |
| ProcessGraph.IngestEvents | console-ui/src/components/AskProcessGraph.tsx:212-216 | Of the progress events only finished tools contribute |
| ProcessGraph.IngestTrace | console-ui/src/components/AskProcessGraph.tsx:217-219 | The tool trace contributes after the events |
| ProcessGraph.IngestCitations | console-ui/src/components/AskProcessGraph.tsx:221-232 | Each citation adds or marks its node under the key of its stripped token |
| ProcessGraph.BuildProcessGraph | console-ui/src/components/AskProcessGraph.tsx:173-235 | Node ids are the feed's keys in order of first appearance, edges the wanted ones in order of first key; exactly the cited are marked, and each node carries its first human label or a weak one |
| ProcessGraph.FirstSeenLaws | console-ui/src/components/AskProcessGraph.tsx:113-129 | First appearances are the same keys, each once |
| ProcessGraph.FirstEdgesLaws | console-ui/src/components/AskProcessGraph.tsx:139-151 | Kept edges are wanted, no self-loops, with distinct keys, and every wanted key is kept |
| ProcessGraph.GraphIsWellFormed | console-ui/src/components/AskProcessGraph.tsx:172-235 | Unique node ids; unique edges without self-loops whose two ends are present |
| ProcessGraph.EdgesCompleteIff | console-ui/src/components/AskProcessGraph.tsx:146-150 | No wanted edge is lost exactly when no two different ones share a key |
| ProcessGraph.EdgeKeyInjective | console-ui/src/components/AskProcessGraph.tsx:147 | Source ids without bars make keys tell edges apart |
| ProcessGraph.SharedKeyIff | console-ui/src/components/AskProcessGraph.tsx:76-85 | The edges of two hits differ and share a key exactly when the hits clash: one node's key goes on, behind a bar, with what the other's source key begins with |
| ProcessGraph.ClashNeedsNesting | console-ui/src/components/AskProcessGraph.tsx:76-85 | A clash needs a node's key and a source's key that both hold a bar and then `source:` |
| ProcessGraph.FeedKeepsEdgesIff | console-ui/src/components/AskProcessGraph.tsx:182-219 | A feed's graph holds every edge its hits ask for exactly when no two linking hits clash |
| ProcessGraph.PlainKeysKeepEdges | console-ui/src/components/AskProcessGraph.tsx:182-219 | Nothing is lost while no source's key, or no node's key, nests a source key behind a bar |
| ProcessGraph.BarsCollide | console-ui/src/components/AskProcessGraph.tsx:146-150 | For all ids nested like this, a feed of two card hits loses the edge of the second |
| ProcessGraph.LiveIdsArePrefix | console-ui/src/components/AskProcessGraph.tsx:212-216 | On a growing live feed without citations the earlier ids are a prefix of the later ones |
| ProcessGraph.SameCountSameNodes | console-ui/src/components/AskProcessGraph.tsx:268-282 | On any growing feed nodes are never lost, and an unchanged count means the same set of nodes |
| ProcessGraph.PhysicsCarriedOver | console-ui/src/components/AskProcessGraph.tsx:153-170 | Nodes rendered before keep position and velocity, new ones have none, and nothing else changes |
| ProcessGraph.QuietRefreshKeepsLayout | console-ui/src/components/AskProcessGraph.tsx:257-282 | A refresh that does not change the count finds a previous node's position for every node |
| ProcessGraph.NodeKeyIsStable | console-ui/src/components/AskProcessGraph.tsx:76-85 | A key is its own key |
| ProcessGraph.NodeKeyNamesKind | console-ui/src/components/AskProcessGraph.tsx:76-85 | A source or claim has one key with and without its kind in front of its id; of the other kinds only ids with a colon are keys themselves |
| ProcessGraph.HitAsksFor | console-ui/src/components/AskProcessGraph.tsx:182-210 | Wherever it stands a hit asks for its node, its source's node and the edge between them, of the type its kind decides |
| ProcessGraph.EventContributes | console-ui/src/components/AskProcessGraph.tsx:212-216 | A finished tool contributes its hits in its place, any other event nothing |
| ProcessGraph.LabelsGiven | console-ui/src/components/AskProcessGraph.tsx:182-231 | A hit gives its node its own label, a citation its title or else its id |
| ProcessGraph.FirstHumanName | console-ui/src/components/AskProcessGraph.tsx:115-124 | The first label that is neither empty nor the key nor a stub is the one that stays |
| ProcessGraph.CitationFindsNode | console-ui/src/components/AskProcessGraph.tsx:221-230 | A citation of a source or claim finds the node of the hit with its id, whatever white space or angle brackets stand around the id and whatever follows it; its kind is its own, or what stands before its first colon, or a claim |
| ProcessGraph.OtherCitationFindsNode | console-ui/src/components/AskProcessGraph.tsx:221-230 | Any other kind is cited by its whole id |
| LibraryOrder.BucketByMonth | console-ui/src/lib/derive.ts:979-985 | One bucket a month, each with that month's rows in their order, every row in one |
| LibraryOrder.GroupByMonth | console-ui/src/lib/derive.ts:977-994 | Months strictly descending, each with its rows stably sorted newest first, none missing |
| LibraryOrder.LaterMonthLaterDate | console-ui/src/lib/derive.ts:846-849 | A later 7-character month means a later full date |
| Lexicographic.PrefixMonotone | console-ui/src/lib/derive.ts:848 | Cutting two texts to the same length keeps their order |
| LibraryOrder.FlattenOrdered | console-ui/src/lib/derive.ts:879-881 | The flattened groups are newest first throughout |
| LibraryOrder.FlattenTies | console-ui/src/lib/derive.ts:879-881 | Flattening keeps every class of equal dates once, in the given order |
| LibraryOrder.GroupingIsOneSort | console-ui/src/lib/derive.ts:977-994 | Bucketing, sorting months and sorting inside months together are one stable sort by date |
| LibraryOrder.UndatedLast | console-ui/src/lib/derive.ts:846-849 | After an undated row come only undated rows |
| LibraryOrder.FlatShas | console-ui/src/lib/derive.ts:879-881 | The flat map lists the ids of the flattened groups |
| LibraryOrder.LibraryBrowseOrder | console-ui/src/lib/derive.ts:874-882 | The browse order is the stable newest-first sort of the filtered sources |
| LibraryOrder.FilterKeepsFitting | console-ui/src/lib/derive.ts:838-872 | The filter keeps, in order, exactly the rows that fit every facet set: where they came from, the first seven characters of the date, the status, a tag |
| Lexicographic.LexLeIff | console-ui/src/lib/derive.ts:846-849 | One text comes before another when it is cut short from it or has the smaller character where they first differ |
| StableSort.SortIsStable | console-ui/src/lib/derive.ts:986-992 | The sort orders its input and keeps every class of ties as it was |
| StableSort.SortIsTheStableSort | console-ui/src/lib/derive.ts:986-992 | Whatever stable sorting routine the host has, it returns this sequence |
| QueueEta.RecentAreNewest | console-ui/src/lib/workQueueEta.ts:111-118 | The samples used are usable, newest first, at most 24, and none left out is newer than one used |
| QueueEta.WeightedAverageSec | console-ui/src/lib/workQueueEta.ts:76-90 | The loop computes the recency-weighted mean, 0 without samples |
| QueueEta.AverageWithinSamples | console-ui/src/lib/workQueueEta.ts:75-90 | The average lies between any bounds of the samples, so between the shortest and the longest |
| QueueEta.AverageIgnoresClock | console-ui/src/lib/workQueueEta.ts:84-89 | The average does not change as the clock advances while no sample is in the future |
| QueueEta.AverageFallsIff | console-ui/src/lib/workQueueEta.ts:84-89 | Between two stamps the average falls or stays exactly when all samples lie on one side of the clock or those in the future average no more than the past ones |
| QueueEta.AverageStaysIff | console-ui/src/lib/workQueueEta.ts:84-89 | Between two stamps it stays exactly when all samples lie on one side of the clock or both sides average the same |
| QueueEta.RecentSamplesPull | console-ui/src/lib/workQueueEta.ts:6-10 | When articles have been getting faster the weighted average is at most the plain mean |
| QueueEta.LastFinished | console-ui/src/lib/workQueueEta.ts:130-143 | The last finished item is the first of those with the latest finish, of any terminal status |
| QueueEta.LastFinishedUnique | console-ui/src/lib/workQueueEta.ts:130-143 | That leaves one answer for every list |
| QueueEta.LastIsDoneIff | console-ui/src/lib/workQueueEta.ts:130-143 | For every list the last finished item is done exactly when the first item with the latest finish is done |
| QueueEta.DoneIsPreferredIff | console-ui/src/lib/workQueueEta.ts:130-143 | Of the items that finished last a done one is preferred exactly when no other is listed before it |
| QueueEta.FailureCanHideSuccess | console-ui/src/lib/workQueueEta.ts:130-143 | An equally late failure listed first hides a success |
| QueueEta.ComputeWorkQueueEta | console-ui/src/lib/workQueueEta.ts:103-188 | Sample count, average, remaining units, elapsed time, reliability, estimate and clock time are those of the specification |
| QueueEta.TwoSamplesAreReliable | console-ui/src/lib/workQueueEta.ts:162 | The estimate is reliable exactly from two samples on; the average is between 8 s and 3 h, or 0 without samples |
| QueueEta.RunningUnitsRange | console-ui/src/lib/workQueueEta.ts:150-160 | A running article counts for at least 0.12 and at most one unit |
| QueueEta.RemainingIs | console-ui/src/lib/workQueueEta.ts:146-172 | The estimate exists exactly from two samples on, and is an average per queued article plus the rest of the running one |
| QueueEta.EstimateFollowsAverage | console-ui/src/lib/workQueueEta.ts:146-172 | Whatever the stamps, the estimate does not rise with the clock as long as the average does not |
| QueueEta.EstimateFallsWithTheClock | console-ui/src/lib/workQueueEta.ts:146-172 | While the average stays and the queue does not change, the estimate never rises and never falls faster than the clock runs |
| QueueEta.PredictionStandsStillThenDrifts | console-ui/src/lib/workQueueEta.ts:150-167 | While the average stays, the unrounded predicted clock time stands still exactly while the running article has begun and is within 88 % of the average, and moves with the clock exactly past that, before its start, or when nothing runs |
| QueueEta.LongerQueueTakesLonger | console-ui/src/lib/workQueueEta.ts:146-167 | One more queued article anywhere in the queue adds exactly one average to the estimate |
| QueueEta.SamplesAre | console-ui/src/lib/workQueueEta.ts:60-73 | The samples are, in order, the finish times and durations of exactly the finished or failed articles with both stamps and 8 seconds to 3 hours between them |
| QueueEta.AverageIsWeightedMean | console-ui/src/lib/workQueueEta.ts:75-90 | The average times the total weight is the total of the weighted durations, a weight being the power of the age in units of 45 minutes, or of 0 for samples ahead of the clock |
| QueueEta.WeightHalves | console-ui/src/lib/workQueueEta.ts:84-86 | A sample 45 minutes older weighs half as much |
| QueueEta.EstimateInSeconds | console-ui/src/lib/workQueueEta.ts:145-172 | From two usable articles on the estimate is the average for each queued article and, for the first running one, what is left of the average since its start, at least 12 % of it |
| QueueEta.RoundIsNearest | console-ui/src/lib/workQueueEta.ts:167 | The clock time is rounded to the nearest second, halves up |

## Left out

- Floating point: rounding, `Float32Array` precision, infinities and not-a-number; `Number.isFinite` is always true here.
- Strings: a character is a code unit to JavaScript and a code point to Python; texts with surrogates are not told apart, and `localeCompare` is taken as the character order.
- PackedCloud.FindSeat: takes `hypot`, `cos`, `sin` and `sqrt` as exact functions, so a clearance lost to rounding is not modelled.
- Terrain.TerrainScene.ApplyFilter: does not model point and colour buffers, labels, markers and hover state, which are drawing; the land array is what the filter reshapes.
- TerrainMesh.MetricWeights: is given the number of citations of each case id; counting them over the active claims is not part of this model.
- Terrain.RecencyMonotone: needs dates whose day numbers follow their text order; `Date.parse` is a parameter, and `RecencyFollowsDays` covers the rest.
- ToolScan.ClaudeScanner.Scan: reads resolved items; reading lines, lower-casing result text, correction markers, command heads, timestamps and message counts are not part of this model.
- ToolScan.CodexScanner.Take: is given the captured exit code; the regular expression that finds it is not part of this model. A code such as `00` counts as a failure, as in the source.
- ExtractObj.ExtractInvertsPrint: numbers are any run of number characters and any character may follow a backslash, so the printed texts include all of RFC 8259 and more.
- ModelPoller: `fetchModel` and React's rendering; an exception thrown inside the success handler is not modelled.
- Excerpt.ExcerptOf: where decoding would put replacement characters the result is `Lossy`, without saying which text that is.
- SourceSpans.SpanNormalisesBack: does not decide each single range that reaches past a link or lies behind one; `LinksShiftTheSpan` gives the failing family, for one appended character that folds to a single one.
- SourceSpans.NormSeq: `NFKC` and lower-casing are one function per character, whatever it is.
- CoverageCase.RunCase: reading files, the `required` and `kind` columns, rounding recall to three digits and writing the report.
- LabelPlacement.DrawLabels: the drawing calls themselves.
- ProcessGraph.BuildProcessGraph: does not state a node's kind, which its first mention decides, and has no `link_target`; without a human label it says only that the label is weak.
- LibraryOrder: facets read from a URL, stored snapshots and tag counts are simple maps and filters.
- QueueEta.AverageFallsIff: is about a step of the clock that passes no sample's stamp; longer steps are made of such steps.
- QueueEta.ComputeWorkQueueEta: has no median, no counts of the last hour and quarter hour, no title, and no formatting of durations.
- The Rust crates, dashboard generators, the concept-map benchmark, and calls to language models: templating, input and output.
