TestResult.DisplayName,TestResult.Outcome,TestResult.Duration,TestResult.ResourceCount,RandomSeed
PdfParser.StructureBlocks (correctness),Failed,00:00:00.5261813,2147368,0
PdfParser.KeepLine (well-formedness),Passed,00:00:00.4596369,44835,0
PdfParser.KeepLineYields (correctness),Passed,00:00:00.4060878,52772,0
PdfParser.StructureFromBlocks (correctness),Passed,00:00:00.2862316,396878,0
PdfParser.StructureFromFlat (correctness),Passed,00:00:00.2613970,325769,0
PdfParser.ParseMembers (correctness),Passed,00:00:00.2481193,291266,0
PdfParser.AllTextBlocksFollowDocument (correctness),Passed,00:00:00.2123874,240829,0
PdfParser.KeptPageBlocks (well-formedness),Passed,00:00:00.2013386,198859,0
PdfParser.KeptPageBlocks (correctness),Passed,00:00:00.1960020,226237,0
PdfParser.StructureFlattens (correctness),Passed,00:00:00.1808163,188117,0
PdfParser.StructureBlocks (well-formedness),Passed,00:00:00.1784952,143539,0
PdfParser.AddBodyPending (correctness),Passed,00:00:00.1760458,505461,0
PdfParser.PageBlocksOrigins (correctness),Passed,00:00:00.1721483,269676,0
PdfParser.BlockStep (well-formedness),Passed,00:00:00.1673387,151462,0
PdfParser.CloseMinorPending (correctness),Passed,00:00:00.1640573,390288,0
PdfParser.LineStep (correctness),Passed,00:00:00.1608645,167000,0
PdfParser.StructureEmpty (correctness),Passed,00:00:00.1535465,190234,0
PdfParser.StructureFlattens (well-formedness),Passed,00:00:00.1526277,149705,0
PdfParser.StructureFromFlat (well-formedness),Passed,00:00:00.1526144,151452,0
PdfParser.KeptPageSpec (correctness),Passed,00:00:00.1375384,162598,0
PdfParser.BlockStep (correctness),Passed,00:00:00.1358808,160894,0
PdfParser.StructureFrom (well-formedness),Passed,00:00:00.1326850,121278,0
PdfParser.LineStep (well-formedness),Passed,00:00:00.1279344,155527,0
PdfParser.ParseMembers (well-formedness),Passed,00:00:00.1257954,167339,0
PdfParser.OpenMajorOrigins (correctness),Passed,00:00:00.1229237,194726,0
PdfParser.OpenMinorOrigins (correctness),Passed,00:00:00.1188389,205831,0
PdfParser.RowTexts (well-formedness),Passed,00:00:00.1166102,53609,0
PdfParser.StructureFromBlocks (well-formedness),Passed,00:00:00.1165953,147685,0
PdfParser.AllTextBlocks (well-formedness),Passed,00:00:00.1051510,74205,0
PdfParser.StructureSections (well-formedness),Passed,00:00:00.1039338,110092,0
PdfParser.DocContributions (well-formedness),Passed,00:00:00.1031390,109412,0
PdfParser.PageBlocks (well-formedness),Passed,00:00:00.0997531,109045,0
PdfParser.AddBodyPending (well-formedness),Passed,00:00:00.0992376,108230,0
PdfParser.OpenMinorOrigins (well-formedness),Passed,00:00:00.0980689,150574,0
PdfParser.KeepLinesMembers (well-formedness),Passed,00:00:00.0971172,52285,0
PdfParser.OpenMinorPending (correctness),Passed,00:00:00.0955699,164527,0
PdfParser.SectionsSnoc (correctness),Passed,00:00:00.0955159,74256,0
PdfParser.Contributions (well-formedness),Passed,00:00:00.0912779,78689,0
PdfParser.KeepLinesMembers (correctness),Passed,00:00:00.0892423,77408,0
PdfParser.PageLines (well-formedness),Passed,00:00:00.0866318,74199,0
PdfParser.FinishPending (correctness),Passed,00:00:00.0850050,150758,0
PdfParser.Description (well-formedness),Passed,00:00:00.0842657,53192,0
PdfParser.AllBlocksAppend (correctness),Passed,00:00:00.0828213,107606,0
PdfParser.FlattenMinors (well-formedness),Passed,00:00:00.0802248,53987,0
PdfParser.Pending (well-formedness),Passed,00:00:00.0778882,75858,0
PdfParser.OpenMajorPending (correctness),Passed,00:00:00.0778163,118289,0
PdfParser.ContentBlocks (well-formedness),Passed,00:00:00.0723892,47741,0
PdfParser.MinorAt (well-formedness),Passed,00:00:00.0717959,69165,0
PdfParser.PageBlocksOrigins (well-formedness),Passed,00:00:00.0710512,105046,0
PdfParser.FlattenSections (well-formedness),Passed,00:00:00.0623536,69690,0
PdfParser.KeptLinesInBody (correctness),Passed,00:00:00.0571152,57181,0
PdfParser.MinorsSnoc (correctness),Passed,00:00:00.0484940,61456,0
PdfParser.Origins (well-formedness),Passed,00:00:00.0441560,51881,0
PdfParser.ContentSnoc (correctness),Passed,00:00:00.0428691,49243,0
PdfParser.OriginsAppend (correctness),Passed,00:00:00.0407247,42927,0
PdfParser.RowEnd (well-formedness),Passed,00:00:00.0359849,48570,0
PdfParser.CloseMinor (well-formedness),Passed,00:00:00.0301988,30499,0
PdfParser.Finish (well-formedness),Passed,00:00:00.0298573,33784,0
PdfParser.AddBody (well-formedness),Passed,00:00:00.0287912,25921,0
PdfParser.ContextOf (well-formedness),Passed,00:00:00.0267283,24531,0
PdfParser.BuilderOk (well-formedness),Passed,00:00:00.0246908,20284,0
PdfParser.ShiftOne (correctness),Passed,00:00:00.0174566,12930,0
