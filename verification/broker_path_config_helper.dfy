/** Where the broker keeps its configuration: a settable path for the broker
    properties file and four JSON files in the `config` directory of a root. */
module BrokerPathConfigHelper {
  import opened Wrappers
  import opened Paths

  /** The class's one piece of static state, `brokerConfigPath`, which may be
      set to null. */
  datatype BrokerPathConfig = BrokerPathConfig(brokerConfigPath: Option<string>)

  /** The initial value: `user.home/store/config/broker.properties`, where a
      missing `user.home` property is appended as "null". */
  function DefaultBrokerConfigPath(userHome: Option<string>, sep: char): (r: string)
    requires IsSeparator(sep)
    ensures LastComponent(r, sep) == "broker.properties"
    ensures Parent(r, sep).Some? && TwoLevelsUnder(Parent(r, sep).value, AppendText(userHome), "store", "config", sep)
  {
    BrokerPropertiesIsLeafName();
    FileUnder(DefaultConfigDir(userHome, sep), "broker.properties", sep)
  }

  lemma BrokerPropertiesIsLeafName()
    ensures IsLeafName("broker.properties")
  {
  }

  /** `user.home/store/config`. */
  function DefaultConfigDir(userHome: Option<string>, sep: char): (r: string)
    requires IsSeparator(sep)
    ensures TwoLevelsUnder(r, AppendText(userHome), "store", "config", sep)
  {
    NestedPath("store", "config", userHome, sep)
  }

  /** The state when the class is loaded. */
  function Initial(userHome: Option<string>, sep: char): (r: BrokerPathConfig)
    requires IsSeparator(sep)
    ensures GetBrokerConfigPath(r) == Some(DefaultBrokerConfigPath(userHome, sep))
  {
    BrokerPathConfig(Some(DefaultBrokerConfigPath(userHome, sep)))
  }

  /** `getBrokerConfigPath`: the value read is the whole static state, so
      storing it back changes nothing. */
  function GetBrokerConfigPath(s: BrokerPathConfig): (r: Option<string>)
    ensures BrokerPathConfig(r) == s
  {
    s.brokerConfigPath
  }

  /** `setBrokerConfigPath`: the getter returns exactly what was set. */
  function SetBrokerConfigPath(s: BrokerPathConfig, path: Option<string>): (r: BrokerPathConfig)
    ensures GetBrokerConfigPath(r) == path
  {
    BrokerPathConfig(path)
  }

  /** The four JSON files in the broker's `config` directory. */
  datatype ConfigFile = Topics | ConsumerOffset | SubscriptionGroup | ConsumerFilter {
    function Name(): (r: string)
      ensures IsLeafName(r)
    {
      match this
      case Topics => "topics.json"
      case ConsumerOffset => "consumerOffset.json"
      case SubscriptionGroup => "subscriptionGroup.json"
      case ConsumerFilter => "consumerFilter.json"
    }
  }

  /** `root + File.separator + "config" + File.separator + name`, shared by
      the four builders. */
  function ConfigPath(f: ConfigFile, rootDir: Option<string>, sep: char): (r: string)
    requires IsSeparator(sep)
    ensures TwoLevelsUnder(r, AppendText(rootDir), "config", f.Name(), sep)
    ensures AppendText(rootDir) + [sep] + "config" + [sep] <= r
  {
    NestedPath("config", f.Name(), rootDir, sep)
  }

  /** `getTopicConfigPath`: `root/config/topics.json`. */
  function TopicConfigPath(rootDir: Option<string>, sep: char): (r: string)
    requires IsSeparator(sep)
    ensures TwoLevelsUnder(r, AppendText(rootDir), "config", "topics.json", sep)
  {
    ConfigPath(Topics, rootDir, sep)
  }

  /** `getConsumerOffsetPath`: `root/config/consumerOffset.json`. */
  function ConsumerOffsetPath(rootDir: Option<string>, sep: char): (r: string)
    requires IsSeparator(sep)
    ensures TwoLevelsUnder(r, AppendText(rootDir), "config", "consumerOffset.json", sep)
  {
    ConfigPath(ConsumerOffset, rootDir, sep)
  }

  /** `getSubscriptionGroupPath`: `root/config/subscriptionGroup.json`. */
  function SubscriptionGroupPath(rootDir: Option<string>, sep: char): (r: string)
    requires IsSeparator(sep)
    ensures TwoLevelsUnder(r, AppendText(rootDir), "config", "subscriptionGroup.json", sep)
  {
    ConfigPath(SubscriptionGroup, rootDir, sep)
  }

  /** `getConsumerFilterPath`: `root/config/consumerFilter.json`. */
  function ConsumerFilterPath(rootDir: Option<string>, sep: char): (r: string)
    requires IsSeparator(sep)
    ensures TwoLevelsUnder(r, AppendText(rootDir), "config", "consumerFilter.json", sep)
  {
    ConfigPath(ConsumerFilter, rootDir, sep)
  }

  /** For one root the four config paths are pairwise different. */
  lemma ConfigPathsDistinct(f1: ConfigFile, f2: ConfigFile, rootDir: Option<string>, sep: char)
    requires IsSeparator(sep)
    ensures ConfigPath(f1, rootDir, sep) == ConfigPath(f2, rootDir, sep) <==> f1 == f2
  {
    assert f1 != f2 ==> f1.Name() != f2.Name();
  }

  /** Each config path determines the text of its root. */
  lemma ConfigPathInjective(f: ConfigFile, r1: Option<string>, r2: Option<string>, sep: char)
    requires IsSeparator(sep)
    ensures ConfigPath(f, r1, sep) == ConfigPath(f, r2, sep) <==> AppendText(r1) == AppendText(r2)
  {
    NestedPathInjective("config", f.Name(), r1, r2, sep);
  }
}
