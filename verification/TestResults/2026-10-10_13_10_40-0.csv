TestResult.DisplayName,TestResult.Outcome,TestResult.Duration,TestResult.ResourceCount,RandomSeed
OutputProcessing.SendResponsesFrom (well-formedness),Passed,00:00:00.8860507,597611,0
OutputProcessing.SendResponses (well-formedness),Passed,00:00:00.5488321,148037,0
OutputProcessing.SendResponsesSplitHorizon (correctness),Passed,00:00:00.1973444,247100,0
OutputProcessing.SendResponsesSplitHorizon (well-formedness),Passed,00:00:00.1904875,190364,0
