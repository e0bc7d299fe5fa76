/**
 * The line filter of `read_host_file` (psshlib/psshutil.py): the lines of a
 * host file, once read, are stripped; blank lines and lines starting with
 * '#' are skipped; every other line goes through `parse_host_entry`, and
 * only entries with a non-empty host are kept. A failing entry is skipped
 * too: its sentinel has no host.
 */
module HostFile {
  import opened Wrappers
  import opened Text
  import opened HostParse

  /** What one line read from a host file contributes: no host or one. */
  function LineHosts(line: string, defaultUser: Option<string>, defaultPort: Option<string>): seq<Host> {
    var l := Strip(line);
    if l == [] || l[0] == '#' then []
    else
      StrippedHasField(line);
      var entry := ParseHostEntry(l, defaultUser, defaultPort);
      if entry.Success? && entry.value.name != [] then [entry.value] else []
  }

  /** The hosts of the lines read from a host file, in line order. */
  function HostLines(lines: seq<string>, defaultUser: Option<string>, defaultPort: Option<string>): seq<Host>
    decreases |lines|
  {
    if lines == [] then []
    else HostLines(lines[..|lines| - 1], defaultUser, defaultPort)
         + LineHosts(lines[|lines| - 1], defaultUser, defaultPort)
  }

  /**
   * The loop of `read_host_file` over the lines it has read: strip, skip
   * blank and comment lines, parse the rest, keep the entries with a host.
   */
  method ReadHostLines(lines: seq<string>, defaultUser: Option<string>, defaultPort: Option<string>)
    returns (hosts: seq<Host>)
    ensures hosts == HostLines(lines, defaultUser, defaultPort)
  {
    hosts := [];
    for k := 0 to |lines|
      invariant hosts == HostLines(lines[..k], defaultUser, defaultPort)
    {
      HostLinesStep(lines, k, defaultUser, defaultPort);
      var line := Strip(lines[k]);
      if line == [] || line[0] == '#' {
        continue;
      }
      StrippedHasField(lines[k]);
      var entry := ParseHostEntry(line, defaultUser, defaultPort);
      if entry.Success? && entry.value.name != [] {
        hosts := hosts + [entry.value];
      }
    }
    assert lines[..|lines|] == lines;
  }

  lemma HostLinesStep(lines: seq<string>, k: nat, defaultUser: Option<string>, defaultPort: Option<string>)
    requires k < |lines|
    ensures HostLines(lines[..k + 1], defaultUser, defaultPort)
         == HostLines(lines[..k], defaultUser, defaultPort) + LineHosts(lines[k], defaultUser, defaultPort)
  {
    assert lines[..k + 1][..k] == lines[..k];
  }

  /** A line gives at most one host, and only one with a name. */
  lemma LineHostsShape(line: string, defaultUser: Option<string>, defaultPort: Option<string>)
    ensures |LineHosts(line, defaultUser, defaultPort)| <= 1
    ensures forall h :: h in LineHosts(line, defaultUser, defaultPort) ==> h.name != []
  {
  }

  /**
   * Every host read from a file has a non-empty name and comes from a line
   * that is neither blank nor a comment and whose entry parsed without error.
   */
  lemma {:induction false} HostLinesFromEntries(lines: seq<string>, defaultUser: Option<string>, defaultPort: Option<string>)
    ensures forall h :: h in HostLines(lines, defaultUser, defaultPort) ==>
      h.name != [] && exists k :: 0 <= k < |lines| && LineHosts(lines[k], defaultUser, defaultPort) == [h]
    decreases |lines|
  {
    if lines != [] {
      var init := lines[..|lines| - 1];
      var last := lines[|lines| - 1];
      HostLinesFromEntries(init, defaultUser, defaultPort);
      assert HostLines(lines, defaultUser, defaultPort)
          == HostLines(init, defaultUser, defaultPort) + LineHosts(last, defaultUser, defaultPort);
      forall h | h in HostLines(lines, defaultUser, defaultPort)
        ensures h.name != [] && exists k :: 0 <= k < |lines| && LineHosts(lines[k], defaultUser, defaultPort) == [h]
      {
        if h in HostLines(init, defaultUser, defaultPort) {
          var k :| 0 <= k < |init| && LineHosts(init[k], defaultUser, defaultPort) == [h];
          assert lines[k] == init[k];
        } else {
          LineHostsShape(last, defaultUser, defaultPort);
          assert LineHosts(lines[|lines| - 1], defaultUser, defaultPort) == [h];
        }
      }
    }
  }
}
