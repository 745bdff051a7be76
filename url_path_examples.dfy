/** The file name of one download worked out in full. */
module UrlPathExamples {
  import opened UrlPath

  /** A URL of the download host's usual form. */
  lemma ExampleFileName()
    ensures FileName("https://host/path/mod-1.2.3.jar") == "mod-1.2.3.jar"
  {
    var host, file := "https://host/path", "mod-1.2.3.jar";
    assert "https://host/path/mod-1.2.3.jar" == host + "/" + file;
    FileNameAfterSlash(host, file);
  }
}
