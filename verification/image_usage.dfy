/** The usage record both generations build from the running pods. */
module ImageUsage {
  /** The two maps `ECRImagesFromPods` updates: `imagesPerRepo` and `encountered` (its true keys). */
  datatype Usage = Usage(imagesPerRepo: map<string, seq<string>>, encountered: set<string>)

  /** `m[repo]` in Go: the tags of `repo`, or none when it has no entry. */
  function TagsOf(m: map<string, seq<string>>, repo: string): seq<string> {
    if repo in m then m[repo] else []
  }
}
