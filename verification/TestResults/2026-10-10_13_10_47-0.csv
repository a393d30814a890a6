TestResult.DisplayName,TestResult.Outcome,TestResult.Duration,TestResult.ResourceCount,RandomSeed
OutputProcessing.SendResponsesFrom (well-formedness),Failed,00:02:25.9806995,4101725,3
OutputProcessing.SendResponses (well-formedness),Passed,00:00:00.3949918,148053,3
OutputProcessing.SendResponsesSplitHorizon (well-formedness),Passed,00:00:00.1757548,190243,3
OutputProcessing.SendResponsesSplitHorizon (correctness),Passed,00:00:00.1631015,247410,3
