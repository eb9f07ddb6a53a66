/** The part of the file system the tool looks at: what each path names. */
module FileSystem {

  /** What a path names. A path absent from the map does not exist. */
  datatype Entry = RegularFile(text: string) | Directory | OtherEntry

  type Files = map<string, Entry>

  /** `os.path.exists(p) and os.path.isfile(p)` */
  predicate IsFile(fs: Files, p: string) {
    p in fs && fs[p].RegularFile?
  }

  /** `os.path.exists(p) and os.path.isdir(p)` */
  predicate IsDir(fs: Files, p: string) {
    p in fs && fs[p].Directory?
  }
}
