/** Machine records, the files generated for them, and the two boot-menu templates rendered to
    lists of entries instead of text. */
module Templates {
  import opened Text
  import opened Csv

  // ---------- Generated files ----------

  datatype Kind = BiosCfg | EfiCfg | Preseed | KickStart | UserData | MetaData | KubeConfig

  function Prefix(k: Kind): string
  {
    match k
    case BiosCfg => "assets/tftp/bios/pxelinux.cfg/01-"
    case EfiCfg => "assets/tftp/efi/grub/x86_64-efi/grub.cfg-01-"
    case Preseed => "assets/http/debian/preseed-"
    case KickStart => "assets/http/centos/"
    case UserData => "assets/http/ubuntu/"
    case MetaData => "assets/http/ubuntu/"
    case KubeConfig => "assets/ansible/kubeconfig-"
  }

  function Suffix(k: Kind): string
  {
    match k
    case BiosCfg => ""
    case EfiCfg => ""
    case Preseed => ".cfg"
    case KickStart => "/install.ks"
    case UserData => "/user-data"
    case MetaData => "/meta-data"
    case KubeConfig => ".yaml"
  }

  function Path(k: Kind, id: string): string
  {
    Prefix(k) + id + Suffix(k)
  }

  lemma PrefixMarks(k: Kind)
    ensures |Prefix(k)| > 12
    ensures Prefix(k)[7] == (match k case KubeConfig => 'a' case BiosCfg | EfiCfg => 't' case _ => 'h')
    ensures k != KubeConfig ==>
              Prefix(k)[12] == (match k case BiosCfg => 'b' case EfiCfg => 'e' case Preseed => 'd'
                                        case KickStart => 'c' case _ => 'u')
  {
  }

  lemma CloudFilesDiffer(a: string, b: string)
    ensures Path(UserData, a) != Path(MetaData, b)
  {
    if |a| == |b| {
      var at := |"assets/http/ubuntu/"| + |a| + 1;
      assert Path(UserData, a)[at] == "/user-data"[1];
      assert Path(MetaData, b)[at] == "/meta-data"[1];
    }
  }

  lemma PathKind(k1: Kind, a: string, k2: Kind, b: string)
    requires Path(k1, a) == Path(k2, b)
    ensures k1 == k2
  {
    PrefixMarks(k1);
    PrefixMarks(k2);
    CloudFilesDiffer(a, b);
    CloudFilesDiffer(b, a);
    var p := Path(k1, a);
    assert p[7] == Prefix(k1)[7] && p[12] == Prefix(k1)[12];
    assert p[7] == Prefix(k2)[7] && p[12] == Prefix(k2)[12];
  }

  /** The generated files lie where the asset layout puts them, each named after the id. */
  lemma PathsFollowLayout(id: string)
    ensures Path(BiosCfg, id) == "assets/tftp/bios/pxelinux.cfg/01-" + id
    ensures Path(EfiCfg, id) == "assets/tftp/efi/grub/x86_64-efi/grub.cfg-01-" + id
    ensures Path(Preseed, id) == "assets/http/debian/preseed-" + id + ".cfg"
    ensures Path(KickStart, id) == "assets/http/centos/" + id + "/install.ks"
    ensures Path(UserData, id) == "assets/http/ubuntu/" + id + "/user-data"
    ensures Path(MetaData, id) == "assets/http/ubuntu/" + id + "/meta-data"
    ensures Path(KubeConfig, id) == "assets/ansible/kubeconfig-" + id + ".yaml"
  {
  }

  /** No two (kind, id) pairs share a path, so files collide only when ids do. */
  lemma {:induction false} PathInjective(k1: Kind, a: string, k2: Kind, b: string)
    ensures Path(k1, a) == Path(k2, b) <==> k1 == k2 && a == b
  {
    if Path(k1, a) == Path(k2, b) {
      PathKind(k1, a, k2, b);
      var n := |Prefix(k1)|;
      assert Path(k1, a)[n..n + |a|] == a;
      assert Path(k2, b)[n..n + |b|] == b;
    }
  }

  // ---------- Machines ----------

  datatype OsData =
    | NoData
    | CentOS(initrd: string, ip: string, kickStartURL: string, repoURL: string, stage2: string)
    | Ubuntu(initrd: string, ip: string, isoURL: string, cloudConfigURL: string, ds: string, rootPath: string)
    | Debian(initrd: string, preseedURL: string)

  datatype Machine = Machine(
    ip: string, cluster: string, template: string, id: string, role: string,
    osName: string, osType: string, kernel: string, osData: OsData, installed: bool)

  predicate Known(os: string)
  {
    os == "centos" || os == "ubuntu" || os == "debian"
  }

  datatype OsPart = OsPart(osName: string, osType: string, kernel: string, osData: OsData)

  /** What generation fills in for an OS name; all of it stays unset for an unknown one. */
  function Profile(os: string, id: string): OsPart
  {
    if os == "centos" then
      OsPart("Centos Stream 10", os, "/images/centos/vmlinuz",
             CentOS("/images/centos/initrd.img", "",
                    "http://192.168.99.1:8033/centos/" + id + "/install.ks",
                    "http://192.168.99.1:8033/centos/mirror/",
                    "http://192.168.99.1:8033/centos/mirror"))
    else if os == "ubuntu" then
      OsPart("Ubuntu 20.04", os, "/images/ubuntu/linux",
             Ubuntu("/images/ubuntu/initrd", "",
                    "http://192.168.99.1:8033/ubuntu/iso/ubuntu-26.04-live-server-amd64.iso",
                    "/dev/null",
                    "http://192.168.99.1:8033/ubuntu/" + id + "/",
                    "/dev/ram0"))
    else if os == "debian" then
      OsPart("Debian 12", os, "/images/debian/linux",
             Debian("/images/debian/initrd.gz",
                    "http://192.168.99.1:8033/debian/preseed-" + id + ".cfg"))
    else
      OsPart("", "", "", NoData)
  }

  /** The record as generated from a row. */
  function MachineOf(row: Row): Machine
  {
    var id := MacAsID(row.mac);
    var p := Profile(row.os, id);
    Machine(row.ip, row.cluster, row.template, id, row.role, p.osName, p.osType, p.kernel, p.osData, false)
  }

  /** The record keeps the columns of its row under their own names, and is not installed. */
  lemma RecordShowsRow(row: Row)
    ensures var m := MachineOf(row);
            && m.ip == row.ip && m.cluster == row.cluster && m.template == row.template && m.role == row.role
            && m.id == MacAsID(row.mac) && !m.installed
            && m.osType == (if row.os == "centos" || row.os == "ubuntu" || row.os == "debian" then row.os else "")
  {
  }

  /** The OS part of the record is the one its own OS type and id call for. */
  predicate Canonical(m: Machine)
  {
    OsPart(m.osName, m.osType, m.kernel, m.osData) == Profile(m.osType, m.id)
  }

  // ---------- Template field selection ----------

  datatype Field = Initrd | IP | KickStartURL | RepoURL | Stage2 | ISOUrl | DS | PreseedURL

  /** Selecting a field of the OS data by name. None is the template error for a field that the
      stored variant lacks, or for a selection from unset data. */
  function Select(d: OsData, f: Field): Option<string>
  {
    match (d, f)
    case (CentOS(initrd, _, _, _, _), Initrd) => Some(initrd)
    case (CentOS(_, ip, _, _, _), IP) => Some(ip)
    case (CentOS(_, _, ks, _, _), KickStartURL) => Some(ks)
    case (CentOS(_, _, _, repo, _), RepoURL) => Some(repo)
    case (CentOS(_, _, _, _, stage2), Stage2) => Some(stage2)
    case (Ubuntu(initrd, _, _, _, _, _), Initrd) => Some(initrd)
    case (Ubuntu(_, ip, _, _, _, _), IP) => Some(ip)
    case (Ubuntu(_, _, iso, _, _, _), ISOUrl) => Some(iso)
    case (Ubuntu(_, _, _, _, ds, _), DS) => Some(ds)
    case (Debian(initrd, _), Initrd) => Some(initrd)
    case (Debian(_, url), PreseedURL) => Some(url)
    case _ => None
  }

  // ---------- Boot menus ----------

  datatype MenuEntry =
    | LocalChain(id: string, loader: Option<string>)
    | InstallUbuntu(osName: string, id: string, kernel: string, iso: string, ds: string, initrd: string)
    | InstallCentOS(osName: string, id: string, kernel: string, ks: string, ip: string, repo: string,
                    stage2: string, initrd: string)
    | InstallDebian(osName: string, id: string, kernel: string, url: string, initrd: string)
    | UnknownOS
    | ExitToDisk

  /** templates/grub.tmpl. Entry 0 is the default. */
  function GrubMenu(m: Machine): Option<seq<MenuEntry>>
  {
    var first :- GrubFirst(m);
    Some([first, ExitToDisk])
  }

  function GrubFirst(m: Machine): Option<MenuEntry>
  {
    if m.installed then
      Some(LocalChain(m.id, LoaderOf(m.osType)))
    else if m.osType == "ubuntu" then
      var iso :- Select(m.osData, ISOUrl);
      var ds :- Select(m.osData, DS);
      var initrd :- Select(m.osData, Initrd);
      Some(InstallUbuntu(m.osName, m.id, m.kernel, iso, ds, initrd))
    else if m.osType == "centos" then
      var ks :- Select(m.osData, KickStartURL);
      var ip :- Select(m.osData, IP);
      var repo :- Select(m.osData, RepoURL);
      var stage2 :- Select(m.osData, Stage2);
      var initrd :- Select(m.osData, Initrd);
      Some(InstallCentOS(m.osName, m.id, m.kernel, ks, ip, repo, stage2, initrd))
    else if m.osType == "debian" then
      var url :- Select(m.osData, PreseedURL);
      var initrd :- Select(m.osData, Initrd);
      Some(InstallDebian(m.osName, m.id, m.kernel, url, initrd))
    else
      Some(UnknownOS)
  }

  datatype BiosBoot =
    | BootUbuntu(initrd: string, ip: string, iso: string, ds: string)
    | BootCentOS(initrd: string, ks: string, ip: string, repo: string)
    | BootDebian(initrd: string, url: string)
    | BootUnknown

  datatype BiosMenu = BiosMenu(osName: string, kernel: string, boot: BiosBoot)

  /** templates/main.tmpl, the entry labelled "install". It never looks at the installed flag. */
  function PxeMenu(m: Machine): Option<BiosMenu>
  {
    var boot :- PxeBoot(m);
    Some(BiosMenu(m.osName, m.kernel, boot))
  }

  function PxeBoot(m: Machine): Option<BiosBoot>
  {
    if m.osType == "ubuntu" then
      var initrd :- Select(m.osData, Initrd);
      var ip :- Select(m.osData, IP);
      var iso :- Select(m.osData, ISOUrl);
      var ds :- Select(m.osData, DS);
      Some(BootUbuntu(initrd, ip, iso, ds))
    else if m.osType == "centos" then
      var initrd :- Select(m.osData, Initrd);
      var ks :- Select(m.osData, KickStartURL);
      var ip :- Select(m.osData, IP);
      var repo :- Select(m.osData, RepoURL);
      Some(BootCentOS(initrd, ks, ip, repo))
    else if m.osType == "debian" then
      var initrd :- Select(m.osData, Initrd);
      var url :- Select(m.osData, PreseedURL);
      Some(BootDebian(initrd, url))
    else
      Some(BootUnknown)
  }

  /** Every field that either template selects exists in the stored variant. */
  predicate VariantSuffices(m: Machine)
  {
    && (m.osType == "centos" ==> m.osData.CentOS?)
    && (m.osType == "ubuntu" ==> m.osData.Ubuntu?)
    && (m.osType == "debian" ==> m.osData.Debian?)
  }

  predicate VariantMatches(m: Machine)
  {
    && (m.osType == "centos" <==> m.osData.CentOS?)
    && (m.osType == "ubuntu" <==> m.osData.Ubuntu?)
    && (m.osType == "debian" <==> m.osData.Debian?)
  }

  /** Both templates go through on a fresh record exactly when its OS data is the variant its OS
      type selects from. */
  lemma {:induction false} RenderingTotalIff(m: Machine)
    ensures GrubMenu(m.(installed := false)).Some? && PxeMenu(m).Some?
       <==> VariantSuffices(m)
  {
    var n := m.(installed := false);
    assert GrubMenu(n).Some? <==> GrubFirst(n).Some?;
    assert PxeMenu(m).Some? <==> PxeBoot(m).Some?;
  }

  lemma CanonicalRenders(m: Machine)
    requires Canonical(m)
    ensures VariantMatches(m) && (m.osType != "" ==> Known(m.osType))
    ensures GrubMenu(m).Some? && |GrubMenu(m).value| == 2 && PxeMenu(m).Some?
  {
    RenderingTotalIff(m);
  }

  lemma LoadersDiffer()
    ensures "/EFI/debian/grubx64.efi" != "/EFI/ubuntu/grubx64.efi"
    ensures "/EFI/debian/grubx64.efi" != "/EFI/centos/grubx64.efi"
    ensures "/EFI/ubuntu/grubx64.efi" != "/EFI/centos/grubx64.efi"
  {
    assert "/EFI/debian/grubx64.efi"[5] == 'd';
    assert "/EFI/ubuntu/grubx64.efi"[5] == 'u';
    assert "/EFI/centos/grubx64.efi"[5] == 'c';
  }

  lemma MenusSeparate(a: Machine, b: Machine)
    requires GrubMenu(a).Some? && GrubMenu(b).Some? && PxeMenu(a).Some? && PxeMenu(b).Some?
    requires (a.osType != "" ==> Known(a.osType)) && (b.osType != "" ==> Known(b.osType))
    ensures PxeMenu(a) == PxeMenu(b) ==> a.osType == b.osType
    ensures GrubMenu(a) == GrubMenu(b) ==> a.osType == b.osType && a.installed == b.installed
  {
    LoadersDiffer();
    assert GrubMenu(a).value[0] == GrubFirst(a).value;
    assert GrubMenu(b).value[0] == GrubFirst(b).value;
  }

  /** What the boot files show of a machine with a given id: the BIOS file its OS type alone, the
      EFI file its OS type and the installed flag. */
  lemma {:induction false} MenusDetermine(a: Machine, b: Machine)
    requires Canonical(a) && Canonical(b) && a.id == b.id
    ensures PxeMenu(a) == PxeMenu(b) <==> a.osType == b.osType
    ensures GrubMenu(a) == GrubMenu(b) <==> a.osType == b.osType && a.installed == b.installed
  {
    hide Profile;
    CanonicalRenders(a);
    CanonicalRenders(b);
    MenusSeparate(a, b);
  }

  function LoaderOf(os: string): Option<string>
  {
    if os == "debian" then Some("/EFI/debian/grubx64.efi")
    else if os == "ubuntu" then Some("/EFI/ubuntu/grubx64.efi")
    else if os == "centos" then Some("/EFI/centos/grubx64.efi")
    else None
  }

  lemma LoaderIsNamedAfterOS(os: string)
    ensures Known(os) <==> LoaderOf(os).Some?
    ensures Known(os) ==> LoaderOf(os) == Some("/EFI/" + os + "/grubx64.efi")
  {
    assert "/EFI/" + "debian" + "/grubx64.efi" == "/EFI/debian/grubx64.efi";
    assert "/EFI/" + "ubuntu" + "/grubx64.efi" == "/EFI/ubuntu/grubx64.efi";
    assert "/EFI/" + "centos" + "/grubx64.efi" == "/EFI/centos/grubx64.efi";
  }

  lemma {:induction false} DefaultEntry(m: Machine)
    requires Canonical(m)
    ensures GrubMenu(m).Some? && |GrubMenu(m).value| == 2
    ensures GrubMenu(m).value[0].LocalChain? <==> m.installed
    ensures GrubMenu(m).value[1] == ExitToDisk
    ensures m.installed && !Known(m.osType) ==> GrubMenu(m).value[0] == LocalChain(m.id, None)
    ensures Known(m.osType) && m.installed ==>
              GrubMenu(m).value[0] == LocalChain(m.id, Some("/EFI/" + m.osType + "/grubx64.efi"))
  {
    hide Profile, LoaderOf;
    CanonicalRenders(m);
    LoaderIsNamedAfterOS(m.osType);
  }

  function EntryImages(e: MenuEntry): Option<(string, string)>
  {
    match e
    case InstallUbuntu(_, _, kernel, _, _, initrd) => Some((kernel, initrd))
    case InstallCentOS(_, _, kernel, _, _, _, _, initrd) => Some((kernel, initrd))
    case InstallDebian(_, _, kernel, _, initrd) => Some((kernel, initrd))
    case _ => None
  }

  function BiosImages(b: BiosMenu): Option<(string, string)>
  {
    if b.boot.BootUnknown? then None else Some((b.kernel, b.boot.initrd))
  }

  /** Both firmwares boot the same installer: one kernel and one initial ramdisk, both from the image
      directory of the machine's OS; and neither boots any for an unknown one. */
  lemma {:induction false} FirmwaresAgreeOnImages(m: Machine)
    requires Canonical(m) && !m.installed
    ensures GrubMenu(m).Some? && |GrubMenu(m).value| == 2 && PxeMenu(m).Some?
    ensures EntryImages(GrubMenu(m).value[0]) == BiosImages(PxeMenu(m).value)
    ensures BiosImages(PxeMenu(m).value).Some? <==> Known(m.osType)
    ensures Known(m.osType) ==>
              var (kernel, initrd) := BiosImages(PxeMenu(m).value).value;
              "/images/" + m.osType + "/" <= kernel && "/images/" + m.osType + "/" <= initrd
  {
    CanonicalRenders(m);
    ImageDirectories();
  }

  lemma ImageDirectories()
    ensures "/images/" + "centos" + "/" <= "/images/centos/vmlinuz"
    ensures "/images/" + "centos" + "/" <= "/images/centos/initrd.img"
    ensures "/images/" + "ubuntu" + "/" <= "/images/ubuntu/linux"
    ensures "/images/" + "ubuntu" + "/" <= "/images/ubuntu/initrd"
    ensures "/images/" + "debian" + "/" <= "/images/debian/linux"
    ensures "/images/" + "debian" + "/" <= "/images/debian/initrd.gz"
  {
    assert "/images/" + "centos" + "/" == "/images/centos/vmlinuz"[..15] == "/images/centos/initrd.img"[..15];
    assert "/images/" + "ubuntu" + "/" == "/images/ubuntu/linux"[..15] == "/images/ubuntu/initrd"[..15];
    assert "/images/" + "debian" + "/" == "/images/debian/linux"[..15] == "/images/debian/initrd.gz"[..15];
  }

  /** Kernel and initial ramdisk are the files that the asset layout provides for the OS, and the menu title
      names its release. */
  lemma {:induction false} ImagesProvided(m: Machine)
    requires Canonical(m)
    ensures m.osType == "centos" ==>
              && m.osData.CentOS? && m.osName == "Centos Stream 10"
              && m.kernel == "/images/centos/vmlinuz" && m.osData.initrd == "/images/centos/initrd.img"
              && m.osData.ip == ""
    ensures m.osType == "ubuntu" ==>
              && m.osData.Ubuntu? && m.osName == "Ubuntu 20.04"
              && m.kernel == "/images/ubuntu/linux" && m.osData.initrd == "/images/ubuntu/initrd"
              && m.osData.isoURL == "http://192.168.99.1:8033/ubuntu/iso/ubuntu-26.04-live-server-amd64.iso"
              && m.osData.ip == "" && m.osData.cloudConfigURL == "/dev/null" && m.osData.rootPath == "/dev/ram0"
    ensures m.osType == "debian" ==>
              && m.osData.Debian? && m.osName == "Debian 12"
              && m.kernel == "/images/debian/linux" && m.osData.initrd == "/images/debian/initrd.gz"
    ensures !Known(m.osType) ==> m.osName == "" && m.kernel == "" && m.osData == NoData
  {
  }

  /** The boot entries of both firmwares show the machine: each of their fields is the field of that name in
      the record, so the two agree wherever they share one. The other EFI entry exits to disk. */
  lemma {:induction false} EntriesShowMachine(m: Machine)
    requires Canonical(m) && !m.installed
    ensures GrubMenu(m).Some? && |GrubMenu(m).value| == 2 && GrubMenu(m).value[1] == ExitToDisk
    ensures PxeMenu(m).Some? && PxeMenu(m).value.osName == m.osName && PxeMenu(m).value.kernel == m.kernel
    ensures m.osType == "ubuntu" ==>
              var e, b := GrubMenu(m).value[0], PxeMenu(m).value.boot;
              && m.osData.Ubuntu? && e.InstallUbuntu? && b.BootUbuntu?
              && e.osName == m.osName && e.id == m.id && e.kernel == m.kernel
              && e.iso == m.osData.isoURL && e.ds == m.osData.ds && e.initrd == m.osData.initrd
              && b.iso == m.osData.isoURL && b.ds == m.osData.ds && b.initrd == m.osData.initrd && b.ip == m.osData.ip
    ensures m.osType == "centos" ==>
              var e, b := GrubMenu(m).value[0], PxeMenu(m).value.boot;
              && m.osData.CentOS? && e.InstallCentOS? && b.BootCentOS?
              && e.osName == m.osName && e.id == m.id && e.kernel == m.kernel
              && e.ks == m.osData.kickStartURL && e.ip == m.osData.ip && e.repo == m.osData.repoURL
              && e.stage2 == m.osData.stage2 && e.initrd == m.osData.initrd
              && b.ks == m.osData.kickStartURL && b.ip == m.osData.ip && b.repo == m.osData.repoURL
              && b.initrd == m.osData.initrd
    ensures m.osType == "debian" ==>
              var e, b := GrubMenu(m).value[0], PxeMenu(m).value.boot;
              && m.osData.Debian? && e.InstallDebian? && b.BootDebian?
              && e.osName == m.osName && e.id == m.id && e.kernel == m.kernel
              && e.url == m.osData.preseedURL && e.initrd == m.osData.initrd
              && b.url == m.osData.preseedURL && b.initrd == m.osData.initrd
    ensures !Known(m.osType) ==> GrubMenu(m).value[0] == UnknownOS && PxeMenu(m).value.boot == BootUnknown
  {
    hide Profile;
    CanonicalRenders(m);
  }

  // ---------- Seeds ----------

  datatype SeedConfig = SeedConfig(hostname: string, username: string, callbackHost: string,
                                   mac: string, sshPubKey: string)

  datatype Content =
    | Grub(menu: Option<seq<MenuEntry>>)
    | Pxe(bios: Option<BiosMenu>)
    | Seed(os: string, cfg: SeedConfig)
    | Blank

  type Files = map<string, Content>

  function SeedKind(os: string): Kind
    requires Known(os)
  {
    if os == "centos" then KickStart else if os == "ubuntu" then UserData else Preseed
  }

  function SeedOf(os: string, mac: string, key: string): Content
  {
    Seed(os, SeedConfig(os + "-node", os, "192.168.99.1:8033", mac, key))
  }

  /** The installed system is named after its OS, gives its user the key that fetches log in with, and calls
      back the provisioner for its own MAC. */
  lemma SeedFields(os: string, mac: string, key: string)
    ensures var seed := SeedOf(os, mac, key);
            && seed.Seed? && seed.os == os
            && seed.cfg.hostname == os + "-node" && seed.cfg.username == os && seed.cfg.sshPubKey == key
            && seed.cfg.mac == mac && seed.cfg.callbackHost == "192.168.99.1:8033"
  {
  }

  /** The seed files written for one row; none for an unknown OS. */
  function WriteSeeds(files: Files, os: string, mac: string, key: string): Files
  {
    var id := MacAsID(mac);
    if !Known(os) then files
    else
      var f := files[Path(SeedKind(os), id) := SeedOf(os, mac, key)];
      if os == "ubuntu" then f[Path(MetaData, id) := Blank] else f
  }

  lemma NoSeedsIfUnknown(files: Files, os: string, mac: string, key: string)
    ensures !Known(os) ==> WriteSeeds(files, os, mac, key) == files
  {
  }

  function WriteBootFiles(files: Files, mac: string, m: Machine): Files
  {
    files[Path(BiosCfg, MacAsID(mac)) := Pxe(PxeMenu(m))][Path(EfiCfg, MacAsID(mac)) := Grub(GrubMenu(m))]
  }

  // ---------- URLs ----------

  const HTTP_ORIGIN := "http://192.168.99.1:8033/"
  const CALLBACK := "http://192.168.99.1:8033/callback?mac="

  /** The file the HTTP server sends for a URL below its static root. */
  function ServedPath(url: string): Option<string>
  {
    if HTTP_ORIGIN <= url then Some("assets/http/" + url[|HTTP_ORIGIN|..]) else None
  }

  /** The URL an installer started from this entry fetches its unattended configuration from;
      cloud-init adds the file name to the data source. */
  function InstallURL(e: MenuEntry): Option<string>
  {
    match e
    case InstallUbuntu(_, _, _, _, ds, _) => Some(ds + "user-data")
    case InstallCentOS(_, _, _, ks, _, _, _, _) => Some(ks)
    case InstallDebian(_, _, _, url, _) => Some(url)
    case _ => None
  }

  function BiosInstallURL(b: BiosBoot): Option<string>
  {
    match b
    case BootUbuntu(_, _, _, ds) => Some(ds + "user-data")
    case BootCentOS(_, ks, _, _) => Some(ks)
    case BootDebian(_, url) => Some(url)
    case BootUnknown => None
  }

  /** The URL a seed makes the installed machine call when it is done. */
  function CallbackURL(c: SeedConfig): string
  {
    "http://" + c.callbackHost + "/callback?mac=" + c.mac
  }

  function CallbackMac(url: string): Option<string>
  {
    if CALLBACK <= url then Some(url[|CALLBACK|..]) else None
  }

  lemma CallbackPrefix()
    ensures "http://" + "192.168.99.1:8033" + "/callback?mac=" == CALLBACK
  {
  }

  lemma {:induction false} SeedCallsBack(os: string, mac: string, key: string)
    ensures CallbackMac(CallbackURL(SeedOf(os, mac, key).cfg)) == Some(mac)
    ensures CallbackURL(SeedOf(os, mac, key).cfg) == "http://192.168.99.1:8033/callback?mac=" + mac
  {
    CallbackPrefix();
    var url := CallbackURL(SeedOf(os, mac, key).cfg);
    assert url == "http://" + "192.168.99.1:8033" + "/callback?mac=" + mac;
    assert url == CALLBACK + mac;
  }

  lemma ServedBelowRoot(rest: string)
    ensures ServedPath(HTTP_ORIGIN + rest) == Some("assets/http/" + rest)
  {
    assert (HTTP_ORIGIN + rest)[|HTTP_ORIGIN|..] == rest;
  }

  /** The install URL in a fresh machine's boot menus, BIOS and EFI alike, leads to the path its
      seed is written to. */
  lemma {:induction false} URLServesSeed(m: Machine)
    requires Canonical(m) && Known(m.osType) && !m.installed
    ensures GrubMenu(m).Some? && |GrubMenu(m).value| == 2 && PxeMenu(m).Some?
    ensures InstallURL(GrubMenu(m).value[0]).Some?
    ensures BiosInstallURL(PxeMenu(m).value.boot) == InstallURL(GrubMenu(m).value[0])
    ensures ServedPath(InstallURL(GrubMenu(m).value[0]).value) == Some(Path(SeedKind(m.osType), m.id))
  {
    hide ServedPath, Path;
    CanonicalRenders(m);
    if m.osType == "centos" {
      KickStartServed(m.id);
    } else if m.osType == "ubuntu" {
      UserDataServed(m.id);
    } else {
      PreseedServed(m.id);
    }
  }

  lemma ServedBelow(dir: string, url: string)
    requires HTTP_ORIGIN + dir <= url
    ensures ServedPath(url).Some? && "assets/http/" + dir <= ServedPath(url).value
  {
    var rest := url[|HTTP_ORIGIN|..];
    assert dir == (HTTP_ORIGIN + dir)[|HTTP_ORIGIN|..] <= rest;
    assert url == HTTP_ORIGIN + rest;
    ServedBelowRoot(rest);
  }

  /** What the installers download besides their seed is served from the mirror directories of their own OS. */
  lemma {:induction false} MirrorsServed(m: Machine)
    requires Canonical(m)
    ensures m.osType == "ubuntu" ==>
              && m.osData.Ubuntu? && ServedPath(m.osData.isoURL).Some?
              && "assets/http/" + "ubuntu/iso/" <= ServedPath(m.osData.isoURL).value
    ensures m.osType == "centos" ==>
              && m.osData.CentOS? && m.osData.repoURL == m.osData.stage2 + "/"
              && ServedPath(m.osData.stage2) == Some("assets/http/" + "centos/mirror")
              && ServedPath(m.osData.repoURL) == Some("assets/http/" + "centos/mirror/")
  {
    hide ServedPath;
    if m.osType == "ubuntu" {
      ISOBelowOrigin();
      ServedBelow("ubuntu/iso/", m.osData.isoURL);
    } else if m.osType == "centos" {
      MirrorBelowOrigin();
      ServedBelowRoot("centos/mirror");
      ServedBelowRoot("centos/mirror/");
    }
  }

  lemma ISOBelowOrigin()
    ensures HTTP_ORIGIN + "ubuntu/iso/" <= "http://192.168.99.1:8033/ubuntu/iso/ubuntu-26.04-live-server-amd64.iso"
  {
    var iso := "http://192.168.99.1:8033/ubuntu/iso/ubuntu-26.04-live-server-amd64.iso";
    assert HTTP_ORIGIN + "ubuntu/iso/" == "http://192.168.99.1:8033/ubuntu/iso/";
    assert |iso| > 36;
    assert forall i :: 0 <= i < 36 ==> "http://192.168.99.1:8033/ubuntu/iso/"[i] == iso[i];
    assert iso[..36] == "http://192.168.99.1:8033/ubuntu/iso/";
  }

  lemma MirrorBelowOrigin()
    ensures "http://192.168.99.1:8033/centos/mirror" == HTTP_ORIGIN + "centos/mirror"
    ensures "http://192.168.99.1:8033/centos/mirror/" == HTTP_ORIGIN + "centos/mirror/"
    ensures "http://192.168.99.1:8033/centos/mirror/" == "http://192.168.99.1:8033/centos/mirror" + "/"
  {
  }

  lemma KickStartServed(id: string)
    ensures ServedPath("http://192.168.99.1:8033/centos/" + id + "/install.ks") == Some(Path(KickStart, id))
  {
    ServedBelowRoot("centos/" + id + "/install.ks");
    assert "http://192.168.99.1:8033/centos/" == HTTP_ORIGIN + "centos/";
    assert "http://192.168.99.1:8033/centos/" + id + "/install.ks" == HTTP_ORIGIN + ("centos/" + id + "/install.ks");
    assert "assets/http/" + "centos/" == "assets/http/centos/";
    assert "assets/http/" + ("centos/" + id + "/install.ks") == "assets/http/" + "centos/" + id + "/install.ks";
  }

  lemma UserDataServed(id: string)
    ensures ServedPath("http://192.168.99.1:8033/ubuntu/" + id + "/" + "user-data") == Some(Path(UserData, id))
  {
    ServedBelowRoot("ubuntu/" + id + "/user-data");
    assert "http://192.168.99.1:8033/ubuntu/" == HTTP_ORIGIN + "ubuntu/";
    assert "/" + "user-data" == "/user-data";
    assert "http://192.168.99.1:8033/ubuntu/" + id + "/" + "user-data" == HTTP_ORIGIN + ("ubuntu/" + id + "/user-data");
    assert "assets/http/" + "ubuntu/" == "assets/http/ubuntu/";
    assert "assets/http/" + ("ubuntu/" + id + "/user-data") == "assets/http/" + "ubuntu/" + id + "/user-data";
  }

  lemma PreseedServed(id: string)
    ensures ServedPath("http://192.168.99.1:8033/debian/preseed-" + id + ".cfg") == Some(Path(Preseed, id))
  {
    ServedBelowRoot("debian/preseed-" + id + ".cfg");
    assert "http://192.168.99.1:8033/debian/preseed-" == HTTP_ORIGIN + "debian/preseed-";
    assert "http://192.168.99.1:8033/debian/preseed-" + id + ".cfg" == HTTP_ORIGIN + ("debian/preseed-" + id + ".cfg");
    assert "assets/http/" + "debian/preseed-" == "assets/http/debian/preseed-";
    assert "assets/http/" + ("debian/preseed-" + id + ".cfg") == "assets/http/" + "debian/preseed-" + id + ".cfg";
  }
}
