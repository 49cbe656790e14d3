/** The policy record of the newer generation (package `core`). */
module PkgCore {
  import opened Wrappers

  /**
   * `CleanupTask`: how often to run (minutes), how many images to keep per
   * repository, where and what to clean, and whose pods protect images.
   */
  datatype CleanupTask = CleanupTask(
    interval: int,
    maxImages: int,
    awsRegion: string,
    ecrRepositories: seq<string>,
    kubeConfig: string,
    kubeNamespaces: seq<string>,
    dryRun: bool,
    registryId: Option<string>,
    keepFilters: seq<string>)

  /**
   * `NewCleanupTask`: every 30 minutes, keep 900 images, in `us-east-1`,
   * deleting for real, with no keep filter, no registry id and no
   * repository or namespace yet.
   */
  function NewCleanupTask(): (t: CleanupTask)
    ensures t.interval == 30 && t.maxImages == 900 && t.awsRegion == "us-east-1"
    ensures !t.dryRun && t.keepFilters == [] && t.registryId == None
    ensures t.ecrRepositories == [] && t.kubeNamespaces == [] && t.kubeConfig == ""
  {
    CleanupTask(
      interval := 30,
      maxImages := 900,
      awsRegion := "us-east-1",
      ecrRepositories := [],
      kubeConfig := "",
      kubeNamespaces := [],
      dryRun := false,
      registryId := None,
      keepFilters := [])
  }
}
